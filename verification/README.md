# Transition label editing of the automata editor

The editor draws finite automata as states joined by transitions. Each
transition carries a label (`Symbol`): a list of symbol strings plus the point
where the label is drawn. Apart from presentation, the only behaviour in
src/models/*.ts, src/utils.ts and src/types.ts is the label-editing API on
`Transition`:

- `addSymbol(s)` appends `s` to the label (`push`), with no duplicate check;
- `removeSymbol(s)` keeps every symbol that is not `s`, in order (`filter`);
- `removeSymbolViaIndex(i)` deletes one symbol at position `i` (`splice(i, 1)`),
  with JavaScript's index clamping.

The model is functional. The editor's classes become immutable datatypes in
`models.dfy`: `Point`, `State`, `Symbol`, `Transition` and `Automata`. Each edit
is a function in `transitions.dfy` that returns the edited transition. The
list operations underneath are in `stringlists.dfy`: an order-preserving
`Filter`, positional `RemoveAt`, and `SpliceStart`, which clamps a
`splice` start index. These come with lemmas relating them: uniqueness of
the filter, distribution over concatenation, idempotence, commutation, and
the reinsert round trip.

`splice(index, 1)` is modelled for every integer index. A negative index
counts back from the end and stops at position 0. An index at or past the end
removes nothing. Strings are compared by content, as `!==` does for
JavaScript string primitives.

## Model

| member | source | states |
|---|---|---|
| Transitions.AddSymbol | src/models/Transition.ts:14-16 | the label grows by exactly one symbol; the old symbols stay as a prefix and `s` is last; the label's multiset gains exactly one more `s` (no duplicate check); endpoints and label position are unchanged |
| Transitions.RemoveSymbol | src/models/Transition.ts:18-20 | afterwards `s` is not in the label; every other symbol keeps its number of occurrences; the new label is an order-preserving subsequence of the old one; the length drops by the number of copies of `s`; endpoints and label position are unchanged |
| Transitions.RemoveSymbolViaIndex | src/models/Transition.ts:22-24 | for `0 <= i < n` the label becomes `values[..i] + values[i+1..]`; for `-n <= i < 0` it removes position `n + i`; for `i < -n` on a non-empty label it removes the first symbol; for `i >= n` or an empty label nothing changes; when something is removed the length drops by one and the multiset strictly shrinks; endpoints and label position are unchanged |
| Transitions.AddThenRemoveLast | src/models/Transition.ts:14-24 | appending `s` and then removing by index the old length, or by index -1, gives back the original transition |
| Transitions.AddThenRemoveSymbol | src/models/Transition.ts:14-20 | removing `s` right after appending it equals removing `s` from the original label |
| Transitions.RemoveAbsentSymbol | src/models/Transition.ts:19 | removing a symbol that the label does not contain leaves the transition unchanged |
| Transitions.RemoveSymbolIdempotent | src/models/Transition.ts:19 | removing the same symbol twice equals removing it once |
| Transitions.RemoveSymbolsCommute | src/models/Transition.ts:18-20 | removing `a` then `b` gives the same transition as removing `b` then `a` |
| Transitions.RemoveSymbolCharacterized | src/models/Transition.ts:18-20 | `RemoveSymbol`'s contract determines its result: any transition with the same endpoints and label position is `RemoveSymbol(t, s)` if its symbols are an order-preserving selection of the old ones, without `s`, keeping every other symbol's count |
| Transitions.RemoveViaIndexOfSoleOccurrence | src/models/Transition.ts:18-24 | when position `i` holds the only copy of `s`, removing by index `i` and removing the value `s` agree |
| Transitions.RemoveViaIndexReinsert | src/models/Transition.ts:22-24 | reinserting the removed symbol at position `i` restores the original label |
| StringLists.Filter | src/models/Transition.ts:19 | the filtered list omits `s`, keeps every other element's count, is an order-preserving subsequence of the input, and is shorter by exactly the number of copies of `s` |
| StringLists.RemoveAt | src/models/Transition.ts:23 | for an in-range position `k` the result is one shorter, agrees with the input before `k` and is shifted by one from `k` on; its multiset plus the removed element is the input's multiset; an out-of-range position leaves the list unchanged |
| StringLists.SpliceStart | src/models/Transition.ts:23 | the start position that `splice` uses never lies past the end of the list |
| StringLists.FilterUnique | src/models/Transition.ts:19 | any order-preserving subsequence that drops every `s` and keeps every other element's count equals the filter |
| StringLists.FilterAppend | src/models/Transition.ts:19 | filtering a concatenation equals concatenating the filtered parts |
| StringLists.FilterAbsent | src/models/Transition.ts:19 | filtering out an absent value returns the list unchanged |
| StringLists.FilterIdempotent | src/models/Transition.ts:19 | filtering twice by the same value equals filtering once |
| StringLists.FilterCommutes | src/models/Transition.ts:19 | filters by two values commute |
| StringLists.RemoveAtSoleOccurrence | src/models/Transition.ts:19-23 | removing the only position that holds `s` equals filtering `s` out |
| StringLists.RemoveAtReinsert | src/models/Transition.ts:23 | putting the removed element back at its position restores the list |
| StringLists.SubsequenceMultiset | src/models/Transition.ts:19 | a subsequence never holds more copies of an element than the list it comes from |

## Left out

- The `Transition` constructor defaults (src/models/Transition.ts:9-11) are not modelled. They call `new State()` without its required arguments, so they do not build meaningful states.
- The `Symbol` and `Automata` constructors (src/models/Symbol.ts:6-9, src/models/Automata.ts:5-10) only fill in defaults: an empty list, the point (0, 0), and no initial state. They appear only as datatype shapes.
- The `State` constructor defaults `radius = 5` and `color = "#121212"` (src/models/State.ts:6-7) and the `Point` constructor defaults `x || 0` and `y || 0` (src/models/Point.ts:4-7) are not modelled. The datatypes take every field explicitly.
- `State`'s `x` and `y` getters and `toString` (src/models/State.ts:10-20) are left out. The getters only read the centre and `toString` only formats the name; no edit uses either.
- `Point` arithmetic (src/models/Point.ts:9-29) and `distanceToLineSegment` (src/utils.ts:3-24) are left out. They are floating-point canvas geometry for hit-testing. Coordinates are reals that the model never computes with.
- The UI `Mode` and `Action` enums in src/types.ts carry no logic and are left out.
- Object identity and aliasing are not modelled. In the editor, `removeSymbol` replaces the label's array while the other two edits mutate it in place, so a list shared with another object would diverge. Here each edit returns a new value.
- StringLists.SpliceStart: its contract states only that the start position lies within the list, not which position is chosen. `Transitions.RemoveSymbolViaIndex`'s contract pins down, for every integer index, which symbol is removed.
- Transitions.RemoveSymbolViaIndex: takes a mathematical integer. Non-integer, NaN and infinite indices, which `splice` first converts to an integer, are not modelled.
- Acceptance testing, epsilon-closure, the determinism check and subset construction are not part of this model. No code for them exists in src/models/*.ts, src/utils.ts or src/types.ts.
