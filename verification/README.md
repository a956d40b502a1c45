# Keybinding index and matcher of awesome, in Dafny

This project models the core of `keybinding.c` from the awesome window manager: the
index of global key bindings and the matcher that resolves a key press to a binding.

- A **binding** (`keybinding_t`) has a keysym, a keycode, a modifier mask and an
  action. A zero keysym or keycode means "not set". `Binding.id` stands for the
  object's address, so *identity* (same id) and *key equality* (same keysym, keycode
  and mask) are kept apart.
- The **index** (`keybinding_idx_t`) holds two arrays. `bySym` holds the bindings keyed
  by keysym and `byCode` the bindings keyed by raw keycode. A binding goes into `bySym`
  when its keysym is set. Each array is kept in strictly **descending** numeric order
  of (keysym, keycode, mask). `keybinding_cmp(k1, k2)` returns 1 when k2's key is the
  greater one, and the search then moves right, so larger keys come first.
- **Registration** is an upsert. It takes a reference on the binding, then either
  replaces an entry with the same key and mask (releasing that entry) or splices the
  binding in at the place the binary search stopped and grabs the key.
- **Unregistration** removes the entry with the binding's key and mask, ungrabs the
  key, and releases a reference on the *argument*. If no entry has that key and mask,
  nothing happens.
- **Lookup** (`keybinding_find`) probes with the keysym the event's keycode has in
  group 0, the keycode itself and the cleaned modifier state. It searches `bySym`
  first and `byCode` second. `keybinding_ev_cmp` does not compare a stored field that
  is zero.
- **Construction** (`luaA_keybinding_new` without its Lua plumbing) reads the key
  string. An empty string sets nothing, `#n` sets the keycode to `atoi(n)`, and any
  other string sets the keysym. The modifier names are OR-ed into one mask.

The operations are pure functions. `Register`, `Unregister` and `Find` are written
around tail-recursive binary searches (`Locate`, `Search`) that follow the source's
`while (l < r)` loops step for step. Each operation has a reference definition based on
linear search (`KeyPos`, `InsertPos`, `MatchPos`, `Resolve`), and the contracts relate
the two. The outside world appears only as an effect trace (`Ref`, `Unref`, `Grab`,
`Ungrab`) and as function parameters: the keymap, CLEANMASK, XStringToKeysym, atoi
and the modifier-name table.

Modules: `KeyOrder` (key_order.dfy) holds the record and the comparators. `KeyIndex`
(key_index.dfy) holds the dual index. `IndexLaws` (index_laws.dfy) relates operations
to one another. `KeyMatch` (key_match.dfy) is the matcher. `KeyDecode`
(key_decode.dfy) is binding construction. `Scenarios` (scenarios.dfy) holds worked
examples.

Where the design description and the code disagree, the model follows the code:
- The design says every binding has exactly one of keysym and keycode set, with
  malformed ones rejected at construction. The code rejects nothing. An empty key
  string, `#0`, or a name XStringToKeysym does not know all give a binding with both
  fields zero. `KeyDecode.NewBinding` states exactly when the result is well formed.
  `Register` and `Unregister` require a well-formed binding, because
  `keybinding_cmp` asserts that both operands have the same kind.
- The design describes ascending order. The arrays are in fact descending.
- The design says unregistering a binding that was never registered does nothing.
  The code removes any entry with the same key and mask, whichever object it is.
- The design says register-then-unregister restores the index. That holds only when
  the registration inserted a new entry. After a replacement, the replaced entry is
  not restored.

## Model

| member | source | states |
|---|---|---|
| KeyOrder.Cmp | keybinding.c:62-73 | keybinding_cmp is the three-way comparison of (keysym, keycode, mask) in lexicographic order, returning 1 exactly when the second binding's key is greater, -1 exactly when it is smaller, and 0 exactly on equal keys; it may only be called on two bindings of the same kind |
| KeyOrder.CmpAssertionsAreSameKind | keybinding.c:65-66 | the two assertions of keybinding_cmp hold exactly when both bindings are keyed by keysym alone or both by keycode alone |
| KeyOrder.CmpAntisymmetric | keybinding.c:68-72 | swapping the operands negates the result, and the result is 0 exactly when keysym, keycode and mask all agree |
| KeyOrder.BelowStrictTotal | keybinding.c:68-72 | the key order the comparator implements is irreflexive, asymmetric, transitive and total |
| KeyOrder.EvCmp | keybinding.c:47-60 | keybinding_ev_cmp gives the sign of (stored - probe) in the key order, with a zero keysym or keycode of the stored binding left out of the comparison; it is 0 exactly when every field the binding sets agrees with the event and the masks are equal |
| KeyOrder.EvCmpAgreesWithCmp | keybinding.c:47-73 | probing with the fields of a binding gives the same answer as keybinding_cmp against any stored binding of the same kind |
| KeyOrder.EvCmpMonotone | keybinding.c:47-60 | among stored bindings of one kind the event comparison follows the key order, which is what lets the lookup use binary search |
| KeyIndex.WithTarget | keybinding.c:79 | an operation writes only the array its binding belongs in (the one chosen by whether the keysym is set); the other array is untouched |
| KeyIndex.Locate | keybinding.c:84-98 | the binary search either stops on an entry whose key and mask equal the binding's, or closes on the one position with all greater keys before it and all smaller keys from it on |
| KeyIndex.LocateAgrees | keybinding.c:84-98 | on a sorted array the binary search misses nothing: it hits exactly when some entry has the binding's key, at that entry, and otherwise stops at the linear insertion point |
| KeyIndex.InsertKeepsSorted | keybinding.c:100 | splicing the binding in where the search stopped keeps the array strictly descending |
| KeyIndex.RemoveKeepsSorted | keybinding.c:118 | taking one entry out keeps the array strictly descending |
| KeyIndex.Register | keybinding.c:75-102 | registration keeps the index valid and leaves the other array alone; when an entry has the binding's key it replaces that slot only, and the trace is one reference taken on the binding then one released on the old entry; otherwise the binding is inserted at its sorted place, the array grows by one, and the trace is one reference taken then one grab |
| KeyIndex.Unregister | keybinding.c:104-127 | unregistration as written: when an entry has the binding's key, that entry alone is removed with the others kept in order, the key is ungrabbed and the argument's reference released; otherwise the index is unchanged and nothing is ungrabbed or released |
| KeyIndex.UnregisterReleasingEntry | keybinding.c:117-121 | the corrected unregistration: the same removal and ungrab, with the reference released on the entry that was removed |
| KeyIndex.Wipe | keybinding.c:36-40 | wiping leaves both arrays empty, which is a valid index |
| IndexLaws.RegisterBalanced | keybinding.c:82-93 | the references registration takes and releases are exactly those that the entries it adds and removes account for |
| IndexLaws.UnregisterReleasingEntryBalanced | keybinding.c:118-120 | the corrected unregistration releases exactly the reference the index held on the removed entry |
| IndexLaws.UnregisterReleasesArgumentNotEntry | keybinding.c:113-120 | counterexample: after k2 replaces k1 under the same key and mask, unregistering k1 removes k2 but releases k1, so the reference accounting no longer balances |
| IndexLaws.FreshRegisterFindsItself | keybinding.c:100 | after a fresh insertion the binding's key is found exactly where it was spliced in, and removing it gives back the old array |
| IndexLaws.RegisterUnregisterRoundTrip | keybinding.c:75-127 | a registration that inserted, followed by unregistering the same binding, restores the index exactly; the traces are reference and grab, then ungrab and release of that same binding |
| IndexLaws.RegisterIdempotent | keybinding.c:90-93 | registering a binding a second time leaves the index as the first time left it, and the trace only swaps one reference on it for another |
| IndexLaws.RegisterMakesKeyOwner | keybinding.c:84-100 | after registration the binding is the one and only entry with its key and mask |
| KeyMatch.Search | keybinding.c:138-153 | one pass of the lookup loop: whatever it returns matches the event; on an ordered array, a miss means that no entry matches |
| KeyMatch.MatchUnique | keybinding.c:141-153 | in an ordered array at most one entry matches a given event |
| KeyMatch.SearchAgrees | keybinding.c:141-153 | on an ordered array the binary search returns exactly the position the linear search finds |
| KeyMatch.Find | keybinding.c:129-159 | the probe is the keysym of the keycode in group 0, the keycode, and the cleaned state; any binding returned matches it and is in the index; on a valid index the result is the first match in bySym, else the first in byCode, else none |
| KeyMatch.FindPriority | keybinding.c:132-158 | on a valid index a symbolic binding that matches is always the answer, a matching raw-code binding is the answer only when no symbolic one matches, and nothing is returned only when no binding matches |
| KeyDecode.CText | keybinding.c:164 | the string the C code sees is the longest prefix without a NUL |
| KeyDecode.NewBinding | keybinding.c:161-205 | an empty key leaves keysym and keycode both zero; `#n` sets only the keycode, to atoi(n); any other key sets only the keysym, to its translation; the result is well formed exactly when the key is non-empty and translates to a non-zero value; the mask is the OR of the names' masks |
| KeyDecode.ModifierMask | keybinding.c:200-205 | the left-to-right OR loop over the modifier table gives the OR of all the names' masks |
| KeyDecode.MaskOfPermutation | keybinding.c:200-205 | the mask depends only on the multiset of modifier names, not on their order |
| KeyDecode.MaskOfCovers | keybinding.c:204 | every bit of every name's mask is in the result |
| KeyDecode.MaskOfLeast | keybinding.c:204 | the result has no bit outside a mask that holds every name's bits |
| Scenarios.UpsertScenario | keybinding.c:75-159 | registering "a"+Mod1, "a"+Mod1+Shift and then "a"+Mod1 again leaves two entries; each press resolves to the binding of its mask, a Lock bit in the state does not change that, and "a"+Shift resolves to nothing |
| Scenarios.RawCodeFallbackScenario | keybinding.c:129-159 | a binding by keycode 38 alone is found for a press of keycode 38, and not for a press of another keycode |
| Scenarios.SymbolicPriorityScenario | keybinding.c:132-157 | with "a" bound both by keysym and by its keycode under the same mask, the press resolves to the keysym binding |

## Findings

| source | as written | input that shows it | evidently intended | confidence | as-written member | corrected member |
|---|---|---|---|---|---|---|
| keybinding.c:118-120 | unregistration removes the entry with the argument's key and mask but releases the reference on the argument, which may be a different object | register k1 = ("a", Mod1); register k2 = ("a", Mod1), which replaces k1 and releases it; unregister k1: k2 is removed and k1 is released a second time, while k2's index reference is never released | release the reference that the index held on the entry it removed | medium (not executed) | KeyIndex.Unregister, IndexLaws.UnregisterReleasesArgumentNotEntry | KeyIndex.UnregisterReleasingEntry, IndexLaws.UnregisterReleasingEntryBalanced |

## Left out

- The Lua bridge is not modelled: the `DO_LUA_NEW`/`DO_LUA_GC` macros, argument checks, `luaL_ref`, the `add`/`remove` wrappers (which only call register and unregister), `__tostring` and the method tables. This is marshalling for another runtime.
- Memory management is not modelled. `keybinding_delete` and the effect of reaching a zero count are left out. References appear only as `Ref`/`Unref` entries in the effect trace, counted per identity.
- X calls are not modelled. `window_root_grabkey`/`window_root_ungrabkey` are recorded as `Grab`/`Ungrab` effects. `xcb_key_symbols_get_keysym` (group 0), `CLEANMASK`, `XStringToKeysym`, `atoi` and `xutil_keymask_fromstr` are function parameters, because their definitions are not part of this model.
- KeyDecode.NewBinding: `atoi` is taken as a function to natural numbers. Negative results, and the truncation of its `int` to the width of `xcb_keycode_t`, are not modelled.
- Integer widths of keysyms, keycodes and stored masks are not modelled: they are unbounded naturals. Masks are 16-bit vectors only while the modifier names are being OR-ed. The midpoint `(r + l) / 2` cannot overflow at any realistic array size.
- KeyIndex.Register: requires the index invariant, meaning each array holds only its own kind, in strictly descending order. The source asserts the kind condition only for pairs it actually compares. Its behaviour on an unsorted array is not modelled, nor is the case where it files a binding with both fields zero into an empty `byCode`, which no assertion catches.
- KeyIndex.Unregister: requires the same index invariant as `Register`, for the same reason.
- KeyMatch.Find: on an index that is not valid, only soundness is stated: whatever is returned matches the event and is in the index.
- Reentrancy and concurrency are not modelled. Everything is single-threaded and synchronous, and callbacks made from grab/ungrab or from releasing a reference are not modelled.
