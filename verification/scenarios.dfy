/**
 Worked scenarios over the whole core: upsert on equal key and mask, symbolic
 priority, the raw-code fallback and the clean-mask normalisation of the event state.
 Keysym 97 is "a", keycode 38 is the key that produces it, mask 1 is Shift, 2 is
 Lock and 8 is Mod1.
 */
module Scenarios {
  import opened KeyOrder
  import opened KeyIndex
  import opened KeyMatch

  /** The keymap of the scenarios: keycode 38 produces "a", nothing else is mapped. */
  function Keymap(code: nat): nat {
    if code == 38 then 97 else 0
  }

  /** CLEANMASK with Lock as the only noise bit. */
  function DropLock(state: nat): nat {
    if state % 4 >= 2 then state - 2 else state
  }

  /** "a"+Mod1, "a"+Mod1+Shift, and "a"+Mod1 again with another action. */
  const H1 := Binding(1, 97, 0, 8, 101)
  const H2 := Binding(2, 97, 0, 9, 102)
  const H3 := Binding(3, 97, 0, 8, 103)

  /** Registering H1, H2 then H3: H3 takes H1's place and both masks stay, the one with
      Shift first. */
  lemma UpsertBuildsIndex()
    ensures Register(Register(Register(Index([], []), H1).index, H2).index, H3).index == Index([H2, H3], [])
  {
    var i1 := Register(Index([], []), H1).index;
    assert i1 == Index([H1], []);
    assert KeyPos([H1], H2) == None;
    assert InsertPos([H1], H2) == 0;
    var i2 := Register(i1, H2).index;
    assert i2 == Index([H2, H1], []);
    assert KeyPos([H2, H1], H3) == Some(1) by {
      assert [H2, H1][1..] == [H1];
    }
  }

  /** Each press resolves to the binding of its cleaned mask; Lock is ignored and a mask
      nothing is bound to finds nothing. */
  lemma UpsertLookups()
    ensures var idx := Index([H2, H3], []);
      && Find(idx, KeyPress(38, 8), Keymap, DropLock) == Some(H3)
      && Find(idx, KeyPress(38, 9), Keymap, DropLock) == Some(H2)
      && Find(idx, KeyPress(38, 10), Keymap, DropLock) == Some(H3)
      && Find(idx, KeyPress(38, 1), Keymap, DropLock) == None
  {
    var idx := Index([H2, H3], []);
    assert Valid(idx);
    assert [H2, H3][1..] == [H3];
    assert [H3][1..] == [];
    assert MatchPos([H2, H3], 97, 38, 8) == Some(1);
    assert MatchPos([H2, H3], 97, 38, 9) == Some(0);
    assert MatchPos([H2, H3], 97, 38, 1) == None;
  }

  /** The whole upsert scenario: register H1, H2, H3, then press "a" under four states. */
  lemma UpsertScenario()
    ensures
      var idx := Register(Register(Register(Index([], []), H1).index, H2).index, H3).index;
      && idx == Index([H2, H3], [])
      && Find(idx, KeyPress(38, 8), Keymap, DropLock) == Some(H3)
      && Find(idx, KeyPress(38, 9), Keymap, DropLock) == Some(H2)
      && Find(idx, KeyPress(38, 10), Keymap, DropLock) == Some(H3)
      && Find(idx, KeyPress(38, 1), Keymap, DropLock) == None
  {
    UpsertBuildsIndex();
    UpsertLookups();
  }

  /** A raw-code binding is found by its keycode when no symbolic binding matches. */
  lemma RawCodeFallbackScenario()
    ensures
      var raw := Binding(4, 0, 38, 0, 104);
      var idx := Register(Index([], []), raw).index;
      && idx == Index([], [raw])
      && Find(idx, KeyPress(38, 0), Keymap, DropLock) == Some(raw)
      && Find(idx, KeyPress(39, 0), Keymap, DropLock) == None
  {
    var raw := Binding(4, 0, 38, 0, 104);
    var idx := Register(Index([], []), raw).index;
    assert idx == Index([], [raw]);
    assert [raw][1..] == [];
    assert MatchPos([raw], 97, 38, 0) == Some(0);
    assert MatchPos([raw], 0, 39, 0) == None;
  }

  /** With "a" bound both symbolically and by its keycode under the same mask, the press
      resolves to the symbolic binding. */
  lemma SymbolicPriorityScenario()
    ensures
      var sym := Binding(5, 97, 0, 8, 105);
      var raw := Binding(6, 0, 38, 8, 106);
      var idx := Register(Register(Index([], []), raw).index, sym).index;
      && idx == Index([sym], [raw])
      && Find(idx, KeyPress(38, 8), Keymap, DropLock) == Some(sym)
  {
    var sym := Binding(5, 97, 0, 8, 105);
    var raw := Binding(6, 0, 38, 8, 106);
    var i1 := Register(Index([], []), raw).index;
    assert i1 == Index([], [raw]);
    var idx := Register(i1, sym).index;
    assert idx == Index([sym], [raw]);
    assert [sym][1..] == [];
    assert MatchPos([sym], 97, 38, 8) == Some(0);
  }
}
