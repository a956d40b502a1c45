/**
 Building a binding from its script-level description (luaA_keybinding_new): the key
 string picks the discriminant, and the modifier names are OR-ed into one mask. The
 translations of names (XStringToKeysym, atoi, xutil_keymask_fromstr) are supplied
 by the caller.
 */
module KeyDecode {
  import opened KeyOrder

  /** A modifier mask as xutil_keymask_fromstr returns it. */
  type Mask = bv16

  /** The C view of a Lua string: its characters up to the first NUL. */
  function CText(s: string): (t: string)
    ensures |t| <= |s| && t == s[..|t|]
    ensures forall i :: 0 <= i < |t| ==> t[i] != '\0'
    ensures |t| < |s| ==> s[|t|] == '\0'
  {
    if |s| == 0 || s[0] == '\0' then "" else [s[0]] + CText(s[1..])
  }

  /** __luaA_keystore: an empty key sets nothing, `#n` sets the keycode to atoi(n),
      anything else sets the keysym to its translation. */
  function KeyStore(b: Binding, key: string, toKeysym: string -> nat, atoi: string -> nat): Binding {
    var str := CText(key);
    if |str| == 0 then b
    else if str[0] != '#' then b.(keysym := toKeysym(str))
    else b.(keycode := atoi(str[1..]))
  }

  /** Reference mask: the OR of the masks of all names. */
  function MaskOf(names: seq<string>, keymask: string -> Mask): Mask {
    if |names| == 0 then 0 else keymask(names[0]) | MaskOf(names[1..], keymask)
  }

  lemma {:induction false} MaskOfSnoc(names: seq<string>, x: string, keymask: string -> Mask)
    ensures MaskOf(names + [x], keymask) == MaskOf(names, keymask) | keymask(x)
  {
    if |names| == 0 {
      assert names + [x] == [x];
      assert [x][1..] == [];
    } else {
      assert (names + [x])[1..] == names[1..] + [x];
      MaskOfSnoc(names[1..], x, keymask);
    }
  }

  /** The OR-loop of luaA_keybinding_new over the modifier table. */
  method ModifierMask(names: seq<string>, keymask: string -> Mask) returns (m: Mask)
    ensures m == MaskOf(names, keymask)
  {
    m := 0;
    var i := 0;
    while i < |names|
      invariant 0 <= i <= |names|
      invariant m == MaskOf(names[..i], keymask)
    {
      assert names[..i + 1] == names[..i] + [names[i]];
      MaskOfSnoc(names[..i], names[i], keymask);
      m := m | keymask(names[i]);
      i := i + 1;
    }
    assert names[..i] == names;
  }

  /** Taking one name out of the list and OR-ing its mask back in changes nothing. */
  lemma {:induction false} MaskOfPick(names: seq<string>, j: nat, keymask: string -> Mask)
    requires j < |names|
    ensures MaskOf(names, keymask) == keymask(names[j]) | MaskOf(names[..j] + names[j + 1..], keymask)
  {
    if j > 0 {
      var rest := names[1..];
      MaskOfPick(rest, j - 1, keymask);
      assert rest[..j - 1] + rest[j..] == (names[..j] + names[j + 1..])[1..];
    } else {
      assert names[..0] + names[1..] == names[1..];
    }
  }

  /** The order of the modifier names does not matter, nor does repeating one: only
      the multiset of names counts. */
  lemma {:induction false} MaskOfPermutation(xs: seq<string>, ys: seq<string>, keymask: string -> Mask)
    requires multiset(xs) == multiset(ys)
    ensures MaskOf(xs, keymask) == MaskOf(ys, keymask)
    decreases |xs|
  {
    if |xs| > 0 {
      assert xs[0] in multiset(ys);
      var j :| 0 <= j < |ys| && ys[j] == xs[0];
      var ys' := ys[..j] + ys[j + 1..];
      assert ys == ys[..j] + [ys[j]] + ys[j + 1..];
      assert multiset(ys) == multiset(ys[..j]) + multiset{ys[j]} + multiset(ys[j + 1..]);
      assert multiset(ys') == multiset(ys[..j]) + multiset(ys[j + 1..]);
      assert xs == [xs[0]] + xs[1..];
      assert multiset(xs) == multiset{xs[0]} + multiset(xs[1..]);
      assert multiset(xs[1..]) == multiset(xs) - multiset{xs[0]};
      assert multiset(ys') == multiset(ys) - multiset{ys[j]};
      MaskOfPermutation(xs[1..], ys', keymask);
      MaskOfPick(ys, j, keymask);
    } else {
      assert |ys| == |multiset(ys)|;
    }
  }

  /** Every bit set in x is set in c. */
  predicate SubMask(x: Mask, c: Mask) {
    x & c == x
  }

  lemma OrSubMask(x: Mask, y: Mask, c: Mask)
    requires SubMask(x, c) && SubMask(y, c)
    ensures SubMask(x | y, c)
  {
  }

  /** The mask holds every bit of every name's mask. */
  lemma MaskOfCovers(names: seq<string>, j: nat, keymask: string -> Mask)
    requires j < |names|
    ensures SubMask(keymask(names[j]), MaskOf(names, keymask))
  {
    MaskOfPick(names, j, keymask);
  }

  /** The mask holds no other bit: any mask holding every name's bits holds it. */
  lemma {:induction false} MaskOfLeast(names: seq<string>, c: Mask, keymask: string -> Mask)
    requires forall j :: 0 <= j < |names| ==> SubMask(keymask(names[j]), c)
    ensures SubMask(MaskOf(names, keymask), c)
  {
    if |names| > 0 {
      assert SubMask(keymask(names[0]), c);
      assert forall j :: 0 <= j < |names[1..]| ==> names[1..][j] == names[j + 1];
      MaskOfLeast(names[1..], c, keymask);
      OrSubMask(keymask(names[0]), MaskOf(names[1..], keymask), c);
    }
  }

  /** luaA_keybinding_new without the Lua marshalling: a zeroed binding gets its key
      from the key string and its mask from the modifier names. The key string alone
      decides the discriminant, and it yields a well-formed binding only when the
      string is non-empty and translates to a non-zero keysym or keycode. */
  method NewBinding(id: nat, action: nat, mods: seq<string>, key: string,
                    toKeysym: string -> nat, atoi: string -> nat, keymask: string -> Mask)
    returns (k: Binding)
    ensures k.id == id && k.action == action
    ensures k.mod == MaskOf(mods, keymask) as nat
    ensures |CText(key)| == 0 ==> k.keysym == 0 && k.keycode == 0
    ensures |CText(key)| > 0 && CText(key)[0] == '#' ==>
      k.keysym == 0 && k.keycode == atoi(CText(key)[1..])
    ensures |CText(key)| > 0 && CText(key)[0] != '#' ==>
      k.keycode == 0 && k.keysym == toKeysym(CText(key))
    ensures WellFormed(k) <==>
      |CText(key)| > 0 &&
      (if CText(key)[0] == '#' then atoi(CText(key)[1..]) != 0 else toKeysym(CText(key)) != 0)
  {
    k := KeyStore(Binding(id, 0, 0, 0, action), key, toKeysym, atoi);
    var m := ModifierMask(mods, keymask);
    k := k.(mod := m as nat);
  }
}
