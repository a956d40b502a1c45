/**
 The order over key bindings: the record a binding is, the lexicographic key it is
 sorted by, and the two three-way comparators of keybinding.c — binding against
 binding (index maintenance) and key-press event against binding (lookup).
 */
module KeyOrder {

  datatype Option<T> = None | Some(value: T)

  /** A keybinding_t. `id` stands for the object's address, so two bindings are the
      same object exactly when their ids agree; `action` is the Lua function reference
      the binding carries and is never looked at here. A zero `keysym` or `keycode`
      means "not set". */
  datatype Binding = Binding(id: nat, keysym: nat, keycode: nat, mod: nat, action: nat)

  /** The triple a binding is ordered by. */
  datatype Key = Key(sym: nat, code: nat, mod: nat)

  function KeyOf(b: Binding): Key {
    Key(b.keysym, b.keycode, b.mod)
  }

  /** Strict lexicographic order on keys, numerically ascending in every field. */
  predicate Below(x: Key, y: Key) {
    || x.sym < y.sym
    || (x.sym == y.sym && x.code < y.code)
    || (x.sym == y.sym && x.code == y.code && x.mod < y.mod)
  }

  /** A binding keyed by symbolic key only. */
  predicate IsSym(b: Binding) {
    b.keysym != 0 && b.keycode == 0
  }

  /** A binding keyed by raw key code only. */
  predicate IsCode(b: Binding) {
    b.keysym == 0 && b.keycode != 0
  }

  /** Exactly one of keysym and keycode is set. */
  predicate WellFormed(b: Binding) {
    IsSym(b) || IsCode(b)
  }

  /** Both bindings carry the same discriminant. */
  predicate SameKind(a: Binding, b: Binding) {
    (IsSym(a) && IsSym(b)) || (IsCode(a) && IsCode(b))
  }

  /** The two assertions keybinding_cmp opens with, as written. */
  predicate CmpAssertions(k1: Binding, k2: Binding) {
    && ((k1.keysym != 0 && k2.keysym != 0) || (k1.keycode != 0 && k2.keycode != 0))
    && ((k1.keysym == 0 && k2.keysym == 0) || (k1.keycode == 0 && k2.keycode == 0))
  }

  /** The assertions of keybinding_cmp admit exactly the pairs of one discriminant. */
  lemma CmpAssertionsAreSameKind(k1: Binding, k2: Binding)
    ensures CmpAssertions(k1, k2) <==> SameKind(k1, k2)
  {
  }

  /** keybinding_cmp: the sign of (k2 - k1) in the key order, so 1 means that k2's key
      is numerically greater. */
  function Cmp(k1: Binding, k2: Binding): (r: int)
    requires SameKind(k1, k2)
    ensures r == 1 <==> Below(KeyOf(k1), KeyOf(k2))
    ensures r == -1 <==> Below(KeyOf(k2), KeyOf(k1))
    ensures r == 0 <==> KeyOf(k1) == KeyOf(k2)
  {
    if k1.keysym != k2.keysym then
      (if k2.keysym > k1.keysym then 1 else -1)
    else if k1.keycode != k2.keycode then
      (if k2.keycode > k1.keycode then 1 else -1)
    else if k1.mod == k2.mod then 0
    else if k2.mod > k1.mod then 1
    else -1
  }

  /** The key a key press presents to the stored binding `k`: a field that `k` leaves
      zero is not compared, which is the same as the event carrying zero there. */
  function Seen(keysym: nat, keycode: nat, mod: nat, k: Binding): Key {
    Key(if k.keysym != 0 then keysym else 0, if k.keycode != 0 then keycode else 0, mod)
  }

  /** keybinding_ev_cmp: the sign of (stored - probe), skipping the stored binding's
      zero fields. It is 0 exactly when every field the binding sets agrees with the
      event and the masks are equal. */
  function EvCmp(keysym: nat, keycode: nat, mod: nat, k: Binding): (r: int)
    ensures r == 0 <==>
      (k.keysym == 0 || k.keysym == keysym) && (k.keycode == 0 || k.keycode == keycode) && k.mod == mod
    ensures r == 1 <==> Below(Seen(keysym, keycode, mod, k), KeyOf(k))
    ensures r == -1 <==> Below(KeyOf(k), Seen(keysym, keycode, mod, k))
  {
    if k.keysym != 0 && k.keysym != keysym then
      (if k.keysym > keysym then 1 else -1)
    else if k.keycode != 0 && k.keycode != keycode then
      (if k.keycode > keycode then 1 else -1)
    else if k.mod == mod then 0
    else if k.mod > mod then 1
    else -1
  }

  /** Below is a strict total order. */
  lemma BelowStrictTotal(x: Key, y: Key, z: Key)
    ensures !Below(x, x)
    ensures Below(x, y) ==> !Below(y, x)
    ensures Below(x, y) && Below(y, z) ==> Below(x, z)
    ensures x == y || Below(x, y) || Below(y, x)
  {
  }

  /** keybinding_cmp is antisymmetric and zero only on equal keys. */
  lemma CmpAntisymmetric(k1: Binding, k2: Binding)
    requires SameKind(k1, k2)
    ensures Cmp(k1, k2) == -Cmp(k2, k1)
    ensures Cmp(k1, k2) == 0 <==> k1.keysym == k2.keysym && k1.keycode == k2.keycode && k1.mod == k2.mod
  {
  }

  /** Both comparators agree: probing with the fields of a binding p of the same kind
      as the stored s gives what keybinding_cmp(p, s) gives. */
  lemma EvCmpAgreesWithCmp(p: Binding, s: Binding)
    requires SameKind(p, s)
    ensures EvCmp(p.keysym, p.keycode, p.mod, s) == Cmp(p, s)
  {
  }

  /** Stored bindings of one kind see a probe as the same key, so the event comparator
      is monotone along the key order: a binding above one that is above the probe is
      above the probe too. */
  lemma EvCmpMonotone(keysym: nat, keycode: nat, mod: nat, lo: Binding, hi: Binding)
    requires SameKind(lo, hi)
    requires Below(KeyOf(lo), KeyOf(hi))
    ensures EvCmp(keysym, keycode, mod, lo) == 1 ==> EvCmp(keysym, keycode, mod, hi) == 1
    ensures EvCmp(keysym, keycode, mod, hi) == -1 ==> EvCmp(keysym, keycode, mod, lo) == -1
  {
    assert Seen(keysym, keycode, mod, lo) == Seen(keysym, keycode, mod, hi);
  }
}
