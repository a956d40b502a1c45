/**
 Laws relating the index operations to each other: reference accounting, the
 register/unregister round trip, upsert idempotence, and the reference imbalance of
 keybinding_unregister_root as written.
 */
module IndexLaws {
  import opened KeyOrder
  import opened KeyIndex

  lemma TraceOfPair(x: Effect, y: Effect, id: nat)
    ensures Taken([x, y], id) == (if x == Ref(id) then 1 else 0) + (if y == Ref(id) then 1 else 0)
    ensures Released([x, y], id) == (if x == Unref(id) then 1 else 0) + (if y == Unref(id) then 1 else 0)
  {
    assert [x, y][1..] == [y];
    assert [y][1..] == [];
    assert Taken([y], id) == (if y == Ref(id) then 1 else 0) + Taken([], id);
    assert Released([y], id) == (if y == Unref(id) then 1 else 0) + Released([], id);
  }

  /** Around position i, an array and its copy with a different entry at i hold the
      same objects. */
  lemma OccurrencesSplit(a: seq<Binding>, i: nat, id: nat)
    requires i < |a|
    ensures Occurrences(a, id) ==
      Occurrences(a[..i], id) + (if a[i].id == id then 1 else 0) + Occurrences(a[i + 1..], id)
  {
    assert a == a[..i] + ([a[i]] + a[i + 1..]);
    OccurrencesAppend(a[..i], [a[i]] + a[i + 1..], id);
    OccurrencesAppend([a[i]], a[i + 1..], id);
    OccurrencesOne(a[i], id);
  }

  lemma OccurrencesReplace(a: seq<Binding>, i: nat, k: Binding, id: nat)
    requires i < |a|
    ensures Occurrences(a[i := k], id) + (if a[i].id == id then 1 else 0) ==
      Occurrences(a, id) + (if k.id == id then 1 else 0)
  {
    OccurrencesSplit(a, i, id);
    OccurrencesSplit(a[i := k], i, id);
    assert a[i := k][..i] == a[..i] && a[i := k][i + 1..] == a[i + 1..];
  }

  lemma OccurrencesInsert(a: seq<Binding>, p: nat, k: Binding, id: nat)
    requires p <= |a|
    ensures Occurrences(a[..p] + [k] + a[p..], id) == Occurrences(a, id) + (if k.id == id then 1 else 0)
  {
    var left, right := a[..p], a[p..];
    OccurrencesAppend(left + [k], right, id);
    OccurrencesAppend(left, [k], id);
    OccurrencesOne(k, id);
    OccurrencesAppend(left, right, id);
    assert left + right == a;
  }

  lemma OccurrencesRemove(a: seq<Binding>, i: nat, id: nat)
    requires i < |a|
    ensures Occurrences(a[..i] + a[i + 1..], id) + (if a[i].id == id then 1 else 0) == Occurrences(a, id)
  {
    OccurrencesSplit(a, i, id);
    OccurrencesAppend(a[..i], a[i + 1..], id);
  }

  /** Registering takes exactly the references the entries it adds account for: one on
      the new binding, minus one on the entry it replaces. */
  lemma RegisterBalanced(idx: Index, k: Binding)
    requires Valid(idx) && WellFormed(k)
    ensures Balanced(idx, Register(idx, k))
  {
    var s := Register(idx, k);
    var a := Target(idx, k);
    assert s.effects == [s.effects[0], s.effects[1]];
    forall id
      ensures Held(idx, id) + Taken(s.effects, id) == Held(s.index, id) + Released(s.effects, id)
    {
      HeldOfTarget(idx, k, id);
      HeldOfTarget(s.index, k, id);
      TraceOfPair(s.effects[0], s.effects[1], id);
      if KeyPos(a, k).Some? {
        OccurrencesReplace(a, KeyPos(a, k).value, k, id);
      } else {
        OccurrencesInsert(a, InsertPos(a, k), k, id);
      }
    }
  }

  /** The corrected unregistration releases exactly the reference the index held on
      the entry it removes. */
  lemma UnregisterReleasingEntryBalanced(idx: Index, k: Binding)
    requires Valid(idx) && WellFormed(k)
    ensures Balanced(idx, UnregisterReleasingEntry(idx, k))
  {
    var s := UnregisterReleasingEntry(idx, k);
    var a := Target(idx, k);
    if KeyPos(a, k).Some? {
      assert s.effects == [s.effects[0], s.effects[1]];
      forall id
        ensures Held(idx, id) + Taken(s.effects, id) == Held(s.index, id) + Released(s.effects, id)
      {
        HeldOfTarget(idx, k, id);
        HeldOfTarget(s.index, k, id);
        TraceOfPair(s.effects[0], s.effects[1], id);
        OccurrencesRemove(a, KeyPos(a, k).value, id);
      }
    } else {
      assert s.effects == [] && s.index == idx;
    }
  }

  /** keybinding_unregister_root as written breaks the books. Register k1, then k2 with
      the same key and mask (k2 replaces k1, releasing it), then unregister k1: the entry
      removed is k2, yet the reference released is k1's, so k2's index reference is
      never released and k1 loses one it no longer lent to the index. */
  lemma UnregisterReleasesArgumentNotEntry()
    ensures
      var k1 := Binding(1, 97, 0, 8, 10);
      var k2 := Binding(2, 97, 0, 8, 20);
      var idx := Register(Register(Index([], []), k1).index, k2).index;
      var s := Unregister(idx, k1);
      && idx == Index([k2], [])
      && s == Step(Index([], []), [Ungrab(k1), Unref(1)])
      && !Balanced(idx, s)
  {
    var k1 := Binding(1, 97, 0, 8, 10);
    var k2 := Binding(2, 97, 0, 8, 20);
    var one := Register(Index([], []), k1).index;
    assert KeyPos([], k1) == None;
    assert one == Index([k1], []);
    assert KeyPos([k1], k2) == Some(0);
    var idx := Register(one, k2).index;
    assert idx == Index([k2], []);
    assert KeyPos([k2], k1) == Some(0);
    var s := Unregister(idx, k1);
    assert s == Step(Index([], []), [Ungrab(k1), Unref(1)]);
    assert [k2][1..] == [];
    assert Held(idx, 2) == 1 && Held(s.index, 2) == 0;
    TraceOfPair(Ungrab(k1), Unref(1), 2);
  }

  lemma InsertThenRemove(a: seq<Binding>, p: nat, k: Binding)
    requires p <= |a|
    ensures var b := a[..p] + [k] + a[p..];
      p < |b| && b[p] == k && b[..p] + b[p + 1..] == a
  {
    var b := a[..p] + [k] + a[p..];
    assert b[..p] == a[..p] && b[p + 1..] == a[p..];
    assert a[..p] + a[p..] == a;
  }

  lemma WithTargetRestores(idx: Index, mid: Index, k: Binding)
    requires Other(mid, k) == Other(idx, k)
    ensures WithTarget(mid, k, Target(idx, k)) == idx
  {
  }

  /** A fresh registration puts k at its insertion point, and that is where an
      unregistration of k then finds it. */
  lemma FreshRegisterFindsItself(idx: Index, k: Binding)
    requires Valid(idx) && WellFormed(k)
    requires KeyPos(Target(idx, k), k).None?
    ensures var mid := Register(idx, k).index; var p := InsertPos(Target(idx, k), k);
      && KeyPos(Target(mid, k), k) == Some(p)
      && Target(mid, k)[..p] + Target(mid, k)[p + 1..] == Target(idx, k)
      && WithTarget(mid, k, Target(idx, k)) == idx
  {
    var a := Target(idx, k);
    var p := InsertPos(a, k);
    var mid := Register(idx, k).index;
    var b := Target(mid, k);
    assert b == a[..p] + [k] + a[p..];
    InsertThenRemove(a, p, k);
    RegisterMakesKeyOwner(idx, k);
    WithTargetRestores(idx, mid, k);
  }

  /** A fresh registration followed by unregistering the same binding restores the
      index exactly, by either unregistration, and releases the reference it took. */
  lemma RegisterUnregisterRoundTrip(idx: Index, k: Binding)
    requires Valid(idx) && WellFormed(k)
    requires KeyPos(Target(idx, k), k).None?
    ensures Register(idx, k).effects == [Ref(k.id), Grab(k)]
    ensures Unregister(Register(idx, k).index, k) == Step(idx, [Ungrab(k), Unref(k.id)])
    ensures UnregisterReleasingEntry(Register(idx, k).index, k) == Step(idx, [Ungrab(k), Unref(k.id)])
  {
    var mid := Register(idx, k).index;
    FreshRegisterFindsItself(idx, k);
    var u := Unregister(mid, k);
    var v := UnregisterReleasingEntry(mid, k);
    assert Target(u.index, k) == Target(idx, k) && Other(u.index, k) == Other(idx, k);
    assert Target(v.index, k) == Target(idx, k) && Other(v.index, k) == Other(idx, k);
  }

  /** Registration is an upsert: doing it twice leaves what doing it once left, the
      second time only trading the index's reference on k for a new one. */
  lemma RegisterIdempotent(idx: Index, k: Binding)
    requires Valid(idx) && WellFormed(k)
    ensures var once := Register(idx, k).index;
      Register(once, k) == Step(once, [Ref(k.id), Unref(k.id)])
  {
    var once := Register(idx, k).index;
    RegisterMakesKeyOwner(idx, k);
    var b := Target(once, k);
    var i := KeyPos(b, k).value;
    assert b[i := k] == b;
    if k.keysym != 0 {
      assert once.(bySym := b) == once;
    } else {
      assert once.(byCode := b) == once;
    }
  }

  /** After registering k, the one entry with k's key is k itself. */
  lemma RegisterMakesKeyOwner(idx: Index, k: Binding)
    requires Valid(idx) && WellFormed(k)
    ensures var b := Target(Register(idx, k).index, k);
      KeyPos(b, k).Some? && b[KeyPos(b, k).value] == k
      && forall j :: 0 <= j < |b| && KeyOf(b[j]) == KeyOf(k) ==> j == KeyPos(b, k).value
  {
    var a := Target(idx, k);
    var b := Target(Register(idx, k).index, k);
    var at: nat := if KeyPos(a, k).Some? then KeyPos(a, k).value else InsertPos(a, k);
    assert b[at] == k;
    assert Sorted(b);
    assert forall j :: 0 <= j < |b| && KeyOf(b[j]) == KeyOf(k) ==> j == at;
  }
}
