/**
 The dual index of keybinding.c: bindings keyed by symbolic key live in `bySym`,
 bindings keyed by raw key code in `byCode`, each kept in strictly descending key
 order so that a binary search can find the place of a binding. Registration upserts,
 unregistration removes by key; both report the reference-count and grab effects they
 have on the outside world as a trace.
 */
module KeyIndex {
  import opened KeyOrder

  /** keybinding_idx_t, passed explicitly instead of living in a global. */
  datatype Index = Index(bySym: seq<Binding>, byCode: seq<Binding>)

  /** What an operation asks of its collaborators: a reference taken or released on the
      binding with that id, a key grabbed or ungrabbed at the root window. */
  datatype Effect = Ref(id: nat) | Unref(id: nat) | Grab(key: Binding) | Ungrab(key: Binding)

  /** The index after an operation, with the effects it had in the order it had them. */
  datatype Step = Step(index: Index, effects: seq<Effect>)

  /** Outcome of a binary search for a binding: an entry with its key at `pos`, or no
      such entry and `pos` is where it belongs. */
  datatype Slot = Hit(pos: nat) | Gap(pos: nat)

  /** Strictly descending: every entry's key is numerically above all later ones. */
  predicate Sorted(a: seq<Binding>) {
    forall i, j :: 0 <= i < j < |a| ==> Below(KeyOf(a[j]), KeyOf(a[i]))
  }

  predicate AllSym(a: seq<Binding>) {
    forall i :: 0 <= i < |a| ==> IsSym(a[i])
  }

  predicate AllCode(a: seq<Binding>) {
    forall i :: 0 <= i < |a| ==> IsCode(a[i])
  }

  /** The index invariant: each array holds its own kind only, in sorted order. */
  predicate Valid(idx: Index) {
    && Sorted(idx.bySym) && AllSym(idx.bySym)
    && Sorted(idx.byCode) && AllCode(idx.byCode)
  }

  /** Every entry of `a` has the discriminant of `k`, as keybinding_cmp asserts of
      every pair it compares. */
  predicate Fits(a: seq<Binding>, k: Binding) {
    forall j :: 0 <= j < |a| ==> SameKind(k, a[j])
  }

  /** The array a binding belongs in, chosen by whether its keysym is set. */
  function Target(idx: Index, k: Binding): seq<Binding> {
    if k.keysym != 0 then idx.bySym else idx.byCode
  }

  /** The array a binding does not belong in. */
  function Other(idx: Index, k: Binding): seq<Binding> {
    if k.keysym != 0 then idx.byCode else idx.bySym
  }

  function WithTarget(idx: Index, k: Binding, a: seq<Binding>): (r: Index)
    ensures Target(r, k) == a && Other(r, k) == Other(idx, k)
  {
    if k.keysym != 0 then idx.(bySym := a) else idx.(byCode := a)
  }

  /** Reference search: the first position whose entry has the key of `k`. */
  function KeyPos(a: seq<Binding>, k: Binding): (r: Option<nat>)
    ensures r.Some? ==> r.value < |a| && KeyOf(a[r.value]) == KeyOf(k)
    ensures r.Some? ==> forall j :: 0 <= j < r.value ==> KeyOf(a[j]) != KeyOf(k)
    ensures r.None? <==> forall j :: 0 <= j < |a| ==> KeyOf(a[j]) != KeyOf(k)
  {
    if |a| == 0 then None
    else if KeyOf(a[0]) == KeyOf(k) then Some(0)
    else match KeyPos(a[1..], k)
      case None => None
      case Some(i) => Some(i + 1)
  }

  /** Reference insertion point: how many leading entries have keys above that of `k`. */
  function InsertPos(a: seq<Binding>, k: Binding): (r: nat)
    ensures r <= |a|
    ensures forall j :: 0 <= j < r ==> Below(KeyOf(k), KeyOf(a[j]))
    ensures r < |a| ==> !Below(KeyOf(k), KeyOf(a[r]))
  {
    if |a| == 0 || !Below(KeyOf(k), KeyOf(a[0])) then 0
    else 1 + InsertPos(a[1..], k)
  }

  /** Every entry of `a` above position `l` is above `k`, every entry from `r` on is
      below it: the bracket the binary search keeps. */
  predicate Bracket(a: seq<Binding>, k: Binding, l: nat, r: nat) {
    && (forall j :: 0 <= j < l && j < |a| ==> Below(KeyOf(k), KeyOf(a[j])))
    && (forall j :: r <= j < |a| ==> Below(KeyOf(a[j]), KeyOf(k)))
  }

  /** The while loop shared by keybinding_register_root and keybinding_unregister_root:
      halve [l, r) with keybinding_cmp until it meets an entry with the key of `k` or
      the bracket closes. */
  function Locate(a: seq<Binding>, k: Binding, l: nat, r: nat): (s: Slot)
    requires l <= r <= |a|
    requires Fits(a, k)
    requires Sorted(a) && Bracket(a, k, l, r)
    ensures s.Hit? ==> l <= s.pos < r && KeyOf(a[s.pos]) == KeyOf(k)
    ensures s.Gap? ==> l <= s.pos <= r && Bracket(a, k, s.pos, s.pos)
    decreases r - l
  {
    if l >= r then Gap(r)
    else
      var i := (r + l) / 2;
      var c := Cmp(k, a[i]);
      if c == -1 then
        assert forall j :: i < j < |a| ==> Below(KeyOf(a[j]), KeyOf(a[i]));
        Locate(a, k, l, i)
      else if c == 0 then Hit(i)
      else
        assert forall j :: 0 <= j < i ==> Below(KeyOf(a[i]), KeyOf(a[j]));
        Locate(a, k, i + 1, r)
  }

  /** On a sorted array the binary search agrees with the reference searches. */
  lemma LocateAgrees(a: seq<Binding>, k: Binding)
    requires Fits(a, k)
    requires Sorted(a)
    ensures Locate(a, k, 0, |a|).Hit? ==> KeyPos(a, k) == Some(Locate(a, k, 0, |a|).pos)
    ensures Locate(a, k, 0, |a|).Gap? ==>
      KeyPos(a, k).None? && InsertPos(a, k) == Locate(a, k, 0, |a|).pos
  {
    var s := Locate(a, k, 0, |a|);
    if s.Hit? {
      assert KeyPos(a, k).Some?;
    } else {
      assert s.pos < |a| ==> Below(KeyOf(a[s.pos]), KeyOf(k));
      InsertPosUnique(a, k, s.pos);
    }
  }

  /** The insertion point is the one position with only higher keys before it and a
      key not above that of `k` at it. */
  lemma {:induction false} InsertPosUnique(a: seq<Binding>, k: Binding, p: nat)
    requires p <= |a|
    requires forall j :: 0 <= j < p ==> Below(KeyOf(k), KeyOf(a[j]))
    requires p < |a| ==> !Below(KeyOf(k), KeyOf(a[p]))
    ensures InsertPos(a, k) == p
  {
    if p > 0 {
      assert Below(KeyOf(k), KeyOf(a[0]));
      assert forall j :: 0 <= j < p - 1 ==> a[1..][j] == a[j + 1];
      InsertPosUnique(a[1..], k, p - 1);
    }
  }

  /** Inserting a binding at its bracket keeps the array sorted. */
  lemma InsertKeepsSorted(a: seq<Binding>, k: Binding, p: nat)
    requires p <= |a| && Sorted(a) && Bracket(a, k, p, p)
    ensures Sorted(a[..p] + [k] + a[p..])
  {
    var b := a[..p] + [k] + a[p..];
    forall i, j | 0 <= i < j < |b|
      ensures Below(KeyOf(b[j]), KeyOf(b[i]))
    {
      if j < p {
        assert b[i] == a[i] && b[j] == a[j];
      } else if j == p {
        assert b[i] == a[i] && b[j] == k;
      } else if i == p {
        assert b[i] == k && b[j] == a[j - 1];
      } else if i < p {
        assert b[i] == a[i] && b[j] == a[j - 1];
      } else {
        assert b[i] == a[i - 1] && b[j] == a[j - 1];
      }
    }
  }

  /** Removing one entry keeps the array sorted. */
  lemma RemoveKeepsSorted(a: seq<Binding>, i: nat)
    requires i < |a| && Sorted(a)
    ensures Sorted(a[..i] + a[i + 1..])
  {
    var b := a[..i] + a[i + 1..];
    forall x, y | 0 <= x < y < |b|
      ensures Below(KeyOf(b[y]), KeyOf(b[x]))
    {
      var x' := if x < i then x else x + 1;
      var y' := if y < i then y else y + 1;
      assert b[x] == a[x'] && b[y] == a[y'];
    }
  }

  /** A well-formed binding fits the array it belongs in. */
  lemma TargetFits(idx: Index, k: Binding)
    requires Valid(idx) && WellFormed(k)
    ensures Fits(Target(idx, k), k)
  {
  }

  /** Putting a sorted array of the right kind back in its place keeps the index valid. */
  lemma ValidWithTarget(idx: Index, k: Binding, b: seq<Binding>)
    requires Valid(idx) && WellFormed(k)
    requires Sorted(b) && Fits(b, k)
    ensures Valid(WithTarget(idx, k, b))
  {
    if k.keysym != 0 {
      assert AllSym(b) by {
        forall j | 0 <= j < |b| ensures IsSym(b[j]) {
          assert SameKind(k, b[j]);
        }
      }
    } else {
      assert AllCode(b) by {
        forall j | 0 <= j < |b| ensures IsCode(b[j]) {
          assert SameKind(k, b[j]);
        }
      }
    }
  }

  /** Splicing, replacing with and removing entries keep an array of one kind. */
  lemma FitsAfterEdit(a: seq<Binding>, k: Binding, i: nat)
    requires Fits(a, k) && WellFormed(k) && i <= |a|
    ensures Fits(a[..i] + [k] + a[i..], k)
    ensures i < |a| ==> Fits(a[i := k], k) && Fits(a[..i] + a[i + 1..], k)
  {
    var b := a[..i] + [k] + a[i..];
    forall j | 0 <= j < |b| ensures SameKind(k, b[j]) {
      if j < i { assert b[j] == a[j]; }
      else if j > i { assert b[j] == a[j - 1]; }
    }
    if i < |a| {
      var c := a[..i] + a[i + 1..];
      forall j | 0 <= j < |c| ensures SameKind(k, c[j]) {
        if j < i { assert c[j] == a[j]; } else { assert c[j] == a[j + 1]; }
      }
    }
  }

  /** keybinding_register_root. The binding takes a reference first; then an entry
      with its key is replaced in place (releasing that entry) or, failing that, the
      binding is spliced in where the search stopped and its key is grabbed. */
  function Register(idx: Index, k: Binding): (s: Step)
    requires Valid(idx) && WellFormed(k)
    ensures Valid(s.index)
    ensures Other(s.index, k) == Other(idx, k)
    ensures var a, b := Target(idx, k), Target(s.index, k);
      match KeyPos(a, k)
      case Some(i) =>
        b == a[i := k] && s.effects == [Ref(k.id), Unref(a[i].id)]
      case None =>
        var p := InsertPos(a, k);
        b == a[..p] + [k] + a[p..] && s.effects == [Ref(k.id), Grab(k)]
  {
    var a := Target(idx, k);
    TargetFits(idx, k);
    LocateAgrees(a, k);
    match Locate(a, k, 0, |a|)
    case Hit(i) =>
      assert Sorted(a[i := k]);
      FitsAfterEdit(a, k, i);
      ValidWithTarget(idx, k, a[i := k]);
      Step(WithTarget(idx, k, a[i := k]), [Ref(k.id), Unref(a[i].id)])
    case Gap(p) =>
      InsertKeepsSorted(a, k, p);
      FitsAfterEdit(a, k, p);
      ValidWithTarget(idx, k, a[..p] + [k] + a[p..]);
      Step(WithTarget(idx, k, a[..p] + [k] + a[p..]), [Ref(k.id), Grab(k)])
  }

  /** keybinding_unregister_root, as written: the entry with the key of `k` is taken out
      of its array and ungrabbed, and the reference released is the one on `k` — the
      argument, which need not be the entry that was removed. Without such an entry
      nothing happens. */
  function Unregister(idx: Index, k: Binding): (s: Step)
    requires Valid(idx) && WellFormed(k)
    ensures Valid(s.index)
    ensures Other(s.index, k) == Other(idx, k)
    ensures var a, b := Target(idx, k), Target(s.index, k);
      match KeyPos(a, k)
      case Some(i) => b == a[..i] + a[i + 1..] && s.effects == [Ungrab(k), Unref(k.id)]
      case None => s.index == idx && s.effects == []
  {
    var a := Target(idx, k);
    TargetFits(idx, k);
    LocateAgrees(a, k);
    match Locate(a, k, 0, |a|)
    case Hit(i) =>
      RemoveKeepsSorted(a, i);
      FitsAfterEdit(a, k, i);
      ValidWithTarget(idx, k, a[..i] + a[i + 1..]);
      Step(WithTarget(idx, k, a[..i] + a[i + 1..]), [Ungrab(k), Unref(k.id)])
    case Gap(_) => Step(idx, [])
  }

  /** keybinding_unregister_root with the reference released on the entry it removes,
      so that the index gives up exactly the reference it held. */
  function UnregisterReleasingEntry(idx: Index, k: Binding): (s: Step)
    requires Valid(idx) && WellFormed(k)
    ensures Valid(s.index)
    ensures Other(s.index, k) == Other(idx, k)
    ensures var a, b := Target(idx, k), Target(s.index, k);
      match KeyPos(a, k)
      case Some(i) => b == a[..i] + a[i + 1..] && s.effects == [Ungrab(k), Unref(a[i].id)]
      case None => s.index == idx && s.effects == []
  {
    var a := Target(idx, k);
    TargetFits(idx, k);
    LocateAgrees(a, k);
    match Locate(a, k, 0, |a|)
    case Hit(i) =>
      RemoveKeepsSorted(a, i);
      FitsAfterEdit(a, k, i);
      ValidWithTarget(idx, k, a[..i] + a[i + 1..]);
      Step(WithTarget(idx, k, a[..i] + a[i + 1..]), [Ungrab(k), Unref(a[i].id)])
    case Gap(_) => Step(idx, [])
  }

  /** keybinding_idx_wipe: both arrays become empty. */
  function Wipe(idx: Index): (r: Index)
    ensures Valid(r)
    ensures |r.bySym| == 0 && |r.byCode| == 0
  {
    Index([], [])
  }

  // Reference accounting.

  /** How many entries of `a` are the object with this id. */
  function Occurrences(a: seq<Binding>, id: nat): nat {
    if |a| == 0 then 0 else (if a[0].id == id then 1 else 0) + Occurrences(a[1..], id)
  }

  /** References the index holds on the object: one per entry. */
  function Held(idx: Index, id: nat): nat {
    Occurrences(idx.bySym, id) + Occurrences(idx.byCode, id)
  }

  /** References taken on the object in a trace. */
  function Taken(e: seq<Effect>, id: nat): nat {
    if |e| == 0 then 0 else (if e[0] == Ref(id) then 1 else 0) + Taken(e[1..], id)
  }

  /** References released on the object in a trace. */
  function Released(e: seq<Effect>, id: nat): nat {
    if |e| == 0 then 0 else (if e[0] == Unref(id) then 1 else 0) + Released(e[1..], id)
  }

  /** An operation keeps the books when, for every object, the references it takes and
      releases are exactly those the entries it adds and removes account for. */
  ghost predicate Balanced(before: Index, s: Step) {
    forall id :: Held(before, id) + Taken(s.effects, id) == Held(s.index, id) + Released(s.effects, id)
  }

  lemma {:induction false} OccurrencesAppend(a: seq<Binding>, b: seq<Binding>, id: nat)
    ensures Occurrences(a + b, id) == Occurrences(a, id) + Occurrences(b, id)
  {
    if |a| == 0 {
      assert a + b == b;
    } else {
      assert (a + b)[1..] == a[1..] + b;
      OccurrencesAppend(a[1..], b, id);
    }
  }

  lemma OccurrencesOne(k: Binding, id: nat)
    ensures Occurrences([k], id) == if k.id == id then 1 else 0
  {
    assert [k][1..] == [];
  }

  lemma HeldOfTarget(idx: Index, k: Binding, id: nat)
    ensures Held(idx, id) == Occurrences(Target(idx, k), id) + Occurrences(Other(idx, k), id)
  {
  }
}
