/**
 The event matcher of keybinding.c: a key press is turned into a probe (the keysym its
 keycode has in group 0, the keycode itself, the cleaned modifier state) and looked up
 by binary search in the symbolic array first, then in the raw-code array.
 */
module KeyMatch {
  import opened KeyOrder
  import opened KeyIndex

  /** The fields of an xcb_key_press_event_t the matcher reads. */
  datatype KeyPress = KeyPress(detail: nat, state: nat)

  /** All entries carry the same discriminant. */
  predicate OneKind(a: seq<Binding>) {
    AllSym(a) || AllCode(a)
  }

  /** Reference search: the first position whose entry the probe matches. */
  function MatchPos(a: seq<Binding>, keysym: nat, keycode: nat, mod: nat): (r: Option<nat>)
    ensures r.Some? ==> r.value < |a| && EvCmp(keysym, keycode, mod, a[r.value]) == 0
    ensures r.Some? ==> forall j :: 0 <= j < r.value ==> EvCmp(keysym, keycode, mod, a[j]) != 0
    ensures r.None? <==> forall j :: 0 <= j < |a| ==> EvCmp(keysym, keycode, mod, a[j]) != 0
  {
    if |a| == 0 then None
    else if EvCmp(keysym, keycode, mod, a[0]) == 0 then Some(0)
    else match MatchPos(a[1..], keysym, keycode, mod)
      case None => None
      case Some(i) => Some(i + 1)
  }

  /** Entries before `l` are above the probe, entries from `r` on below it. */
  predicate EvBracket(a: seq<Binding>, keysym: nat, keycode: nat, mod: nat, l: nat, r: nat) {
    && (forall j :: 0 <= j < l && j < |a| ==> EvCmp(keysym, keycode, mod, a[j]) == 1)
    && (forall j :: r <= j < |a| ==> EvCmp(keysym, keycode, mod, a[j]) == -1)
  }

  /** On an ordered array, an entry below the probe has every later entry below it too. */
  lemma NarrowRight(a: seq<Binding>, keysym: nat, keycode: nat, mod: nat, l: nat, r: nat, i: nat)
    requires l <= i < r <= |a|
    requires EvCmp(keysym, keycode, mod, a[i]) == -1
    ensures Sorted(a) && OneKind(a) && EvBracket(a, keysym, keycode, mod, l, r) ==>
      EvBracket(a, keysym, keycode, mod, l, i)
  {
    if Sorted(a) && OneKind(a) {
      forall j | i < j < |a| ensures EvCmp(keysym, keycode, mod, a[j]) == -1 {
        EvCmpMonotone(keysym, keycode, mod, a[j], a[i]);
      }
    }
  }

  /** On an ordered array, an entry above the probe has every earlier entry above it too. */
  lemma NarrowLeft(a: seq<Binding>, keysym: nat, keycode: nat, mod: nat, l: nat, r: nat, i: nat)
    requires l <= i < r <= |a|
    requires EvCmp(keysym, keycode, mod, a[i]) == 1
    ensures Sorted(a) && OneKind(a) && EvBracket(a, keysym, keycode, mod, l, r) ==>
      EvBracket(a, keysym, keycode, mod, i + 1, r)
  {
    if Sorted(a) && OneKind(a) {
      forall j | 0 <= j < i ensures EvCmp(keysym, keycode, mod, a[j]) == 1 {
        EvCmpMonotone(keysym, keycode, mod, a[i], a[j]);
      }
    }
  }

  /** The search loop of keybinding_find over one array, with keybinding_ev_cmp. Whatever
      it returns matches; on an ordered array a miss means nothing matches. */
  function Search(a: seq<Binding>, keysym: nat, keycode: nat, mod: nat, l: nat, r: nat): (res: Option<nat>)
    requires l <= r <= |a|
    ensures res.Some? ==> l <= res.value < r && EvCmp(keysym, keycode, mod, a[res.value]) == 0
    ensures res.None? && Sorted(a) && OneKind(a) && EvBracket(a, keysym, keycode, mod, l, r) ==>
      forall j :: 0 <= j < |a| ==> EvCmp(keysym, keycode, mod, a[j]) != 0
    decreases r - l
  {
    if l >= r then None
    else
      var i := (r + l) / 2;
      var c := EvCmp(keysym, keycode, mod, a[i]);
      if c == -1 then
        NarrowRight(a, keysym, keycode, mod, l, r, i);
        Search(a, keysym, keycode, mod, l, i)
      else if c == 0 then Some(i)
      else
        NarrowLeft(a, keysym, keycode, mod, l, r, i);
        Search(a, keysym, keycode, mod, i + 1, r)
  }

  /** In an ordered array at most one entry matches a probe. */
  lemma MatchUnique(a: seq<Binding>, keysym: nat, keycode: nat, mod: nat, i: nat, j: nat)
    requires Sorted(a) && OneKind(a)
    requires i < |a| && j < |a|
    requires EvCmp(keysym, keycode, mod, a[i]) == 0 && EvCmp(keysym, keycode, mod, a[j]) == 0
    ensures i == j
  {
    assert Seen(keysym, keycode, mod, a[i]) == Seen(keysym, keycode, mod, a[j]);
  }

  /** On an ordered array the binary search finds what the reference search finds. */
  lemma SearchAgrees(a: seq<Binding>, keysym: nat, keycode: nat, mod: nat)
    ensures Sorted(a) && OneKind(a) ==>
      Search(a, keysym, keycode, mod, 0, |a|) == MatchPos(a, keysym, keycode, mod)
  {
    var s := Search(a, keysym, keycode, mod, 0, |a|);
    var m := MatchPos(a, keysym, keycode, mod);
    if Sorted(a) && OneKind(a) && s.Some? {
      MatchUnique(a, keysym, keycode, mod, s.value, m.value);
    }
  }

  /** Reference matcher: the first matching symbolic binding, else the first matching
      raw-code binding, else none. */
  function Resolve(idx: Index, keysym: nat, keycode: nat, mod: nat): Option<Binding> {
    match MatchPos(idx.bySym, keysym, keycode, mod)
    case Some(i) => Some(idx.bySym[i])
    case None =>
      match MatchPos(idx.byCode, keysym, keycode, mod)
      case Some(i) => Some(idx.byCode[i])
      case None => None
  }

  /** keybinding_find. `keysymOf` is the keysym a keycode has in group 0 of the current
      keymap and `clean` is CLEANMASK; both are supplied by the caller. Any binding
      returned matches the event and is in the index; on a valid index the result is
      exactly the reference matcher's. */
  function Find(idx: Index, ev: KeyPress, keysymOf: nat -> nat, clean: nat -> nat): (r: Option<Binding>)
    ensures r.Some? ==>
      && EvCmp(keysymOf(ev.detail), ev.detail, clean(ev.state), r.value) == 0
      && (r.value in idx.bySym || r.value in idx.byCode)
    ensures Valid(idx) ==> r == Resolve(idx, keysymOf(ev.detail), ev.detail, clean(ev.state))
  {
    var keysym := keysymOf(ev.detail);
    var mod := clean(ev.state);
    SearchAgrees(idx.bySym, keysym, ev.detail, mod);
    SearchAgrees(idx.byCode, keysym, ev.detail, mod);
    match Search(idx.bySym, keysym, ev.detail, mod, 0, |idx.bySym|)
    case Some(i) => Some(idx.bySym[i])
    case None =>
      match Search(idx.byCode, keysym, ev.detail, mod, 0, |idx.byCode|)
      case Some(i) => Some(idx.byCode[i])
      case None => None
  }

  /** Symbolic bindings win: on a valid index, a key press matched by some symbolic
      binding resolves to it; only when none matches does a raw-code binding that
      matches get returned; and nothing is returned only when nothing matches. */
  lemma FindPriority(idx: Index, ev: KeyPress, keysymOf: nat -> nat, clean: nat -> nat, j: nat)
    requires Valid(idx)
    ensures var ks, m, r := keysymOf(ev.detail), clean(ev.state), Find(idx, ev, keysymOf, clean);
      && (j < |idx.bySym| && EvCmp(ks, ev.detail, m, idx.bySym[j]) == 0 ==> r == Some(idx.bySym[j]))
      && (j < |idx.byCode| && EvCmp(ks, ev.detail, m, idx.byCode[j]) == 0
          && (forall i :: 0 <= i < |idx.bySym| ==> EvCmp(ks, ev.detail, m, idx.bySym[i]) != 0)
          ==> r == Some(idx.byCode[j]))
      && (r.None? <==>
          && (forall i :: 0 <= i < |idx.bySym| ==> EvCmp(ks, ev.detail, m, idx.bySym[i]) != 0)
          && (forall i :: 0 <= i < |idx.byCode| ==> EvCmp(ks, ev.detail, m, idx.byCode[i]) != 0))
  {
    var ks, m := keysymOf(ev.detail), clean(ev.state);
    var s := MatchPos(idx.bySym, ks, ev.detail, m);
    var c := MatchPos(idx.byCode, ks, ev.detail, m);
    if j < |idx.bySym| && EvCmp(ks, ev.detail, m, idx.bySym[j]) == 0 {
      MatchUnique(idx.bySym, ks, ev.detail, m, j, s.value);
    }
    if j < |idx.byCode| && EvCmp(ks, ev.detail, m, idx.byCode[j]) == 0 {
      MatchUnique(idx.byCode, ks, ev.detail, m, j, c.value);
    }
  }
}
