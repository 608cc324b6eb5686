/**
 The label-editing operations of a transition. Each returns the edited
 transition; only the label's list of symbol strings ever changes.
 */
module Transitions {
  import opened Models
  import opened StringLists

  /** The endpoints and the label position of `t` and `r` agree. */
  predicate SameFrame(t: Transition, r: Transition)
  {
    r.from == t.from && r.to == t.to && r.symbol.position == t.symbol.position
  }

  /** Appends `s` to the label; a symbol already present is appended again. */
  function AddSymbol(t: Transition, s: string): (r: Transition)
    ensures SameFrame(t, r)
    ensures |r.symbol.values| == |t.symbol.values| + 1
    ensures r.symbol.values[..|t.symbol.values|] == t.symbol.values
    ensures r.symbol.values[|t.symbol.values|] == s
    ensures multiset(r.symbol.values) == multiset(t.symbol.values) + multiset{s}
  {
    t.(symbol := t.symbol.(values := t.symbol.values + [s]))
  }

  /** Removes every occurrence of `s` from the label, keeping the order of
      the other symbols. */
  function RemoveSymbol(t: Transition, s: string): (r: Transition)
    ensures SameFrame(t, r)
    ensures s !in r.symbol.values
    ensures forall x :: x != s ==> multiset(r.symbol.values)[x] == multiset(t.symbol.values)[x]
    ensures IsSubsequence(r.symbol.values, t.symbol.values)
    ensures |r.symbol.values| == |t.symbol.values| - multiset(t.symbol.values)[s]
  {
    t.(symbol := t.symbol.(values := Filter(t.symbol.values, s)))
  }

  /** Removes the symbol at `index` the way `splice(index, 1)` does: a
      negative index counts back from the end and stops at the first symbol,
      an index at or past the end removes nothing. */
  function RemoveSymbolViaIndex(t: Transition, index: int): (r: Transition)
    ensures SameFrame(t, r)
    ensures var xs, n := t.symbol.values, |t.symbol.values|;
      0 <= index < n ==> r.symbol.values == xs[..index] + xs[index + 1..]
    ensures var xs, n := t.symbol.values, |t.symbol.values|;
      -n <= index < 0 ==> r.symbol.values == xs[..n + index] + xs[n + index + 1..]
    ensures var xs, n := t.symbol.values, |t.symbol.values|;
      index < -n && 0 < n ==> r.symbol.values == xs[1..]
    ensures |t.symbol.values| <= index ==> r == t
    ensures |t.symbol.values| == 0 ==> r == t
    ensures 0 < |t.symbol.values| && index < |t.symbol.values| ==>
      |r.symbol.values| == |t.symbol.values| - 1 && multiset(r.symbol.values) < multiset(t.symbol.values)
  {
    var xs := t.symbol.values;
    t.(symbol := t.symbol.(values := RemoveAt(xs, SpliceStart(index, |xs|))))
  }

  /** Appending a symbol and then removing the last position restores the
      transition, whether that position is named from the front or as -1. */
  lemma AddThenRemoveLast(t: Transition, s: string)
    ensures RemoveSymbolViaIndex(AddSymbol(t, s), |t.symbol.values|) == t
    ensures RemoveSymbolViaIndex(AddSymbol(t, s), -1) == t
  {
    var xs := t.symbol.values;
    assert (xs + [s])[..|xs|] == xs;
  }

  /** Removing a symbol right after appending it is the same as removing it
      from the original label: the appended copy leaves no trace. */
  lemma AddThenRemoveSymbol(t: Transition, s: string)
    ensures RemoveSymbol(AddSymbol(t, s), s) == RemoveSymbol(t, s)
  {
    FilterAppend(t.symbol.values, [s], s);
    assert Filter([s], s) == [];
  }

  /** Removing a symbol the label does not hold changes nothing. */
  lemma RemoveAbsentSymbol(t: Transition, s: string)
    requires s !in t.symbol.values
    ensures RemoveSymbol(t, s) == t
  {
    FilterAbsent(t.symbol.values, s);
  }

  /** Removing the same symbol twice is removing it once. */
  lemma RemoveSymbolIdempotent(t: Transition, s: string)
    ensures RemoveSymbol(RemoveSymbol(t, s), s) == RemoveSymbol(t, s)
  {
    FilterIdempotent(t.symbol.values, s);
  }

  /** Removing two symbols gives the same label in either order. */
  lemma RemoveSymbolsCommute(t: Transition, a: string, b: string)
    ensures RemoveSymbol(RemoveSymbol(t, a), b) == RemoveSymbol(RemoveSymbol(t, b), a)
  {
    FilterCommutes(t.symbol.values, a, b);
  }

  /** `RemoveSymbol` is the only edit with its contract: any transition with
      the same endpoints and label position whose symbols are an
      order-preserving selection of the old ones, without `s`, and keeping
      every other symbol as often as before, is `RemoveSymbol(t, s)`. */
  lemma RemoveSymbolCharacterized(t: Transition, s: string, r: Transition)
    requires SameFrame(t, r)
    requires IsSubsequence(r.symbol.values, t.symbol.values)
    requires s !in r.symbol.values
    requires forall x :: x != s ==> multiset(r.symbol.values)[x] == multiset(t.symbol.values)[x]
    ensures r == RemoveSymbol(t, s)
  {
    FilterUnique(t.symbol.values, s, r.symbol.values);
  }

  /** When position `index` holds the only copy of `s`, removing by index
      and removing by value agree. */
  lemma RemoveViaIndexOfSoleOccurrence(t: Transition, index: nat, s: string)
    requires index < |t.symbol.values| && t.symbol.values[index] == s
    requires multiset(t.symbol.values)[s] == 1
    ensures RemoveSymbolViaIndex(t, index) == RemoveSymbol(t, s)
  {
    RemoveAtSoleOccurrence(t.symbol.values, index, s);
  }

  /** The symbol removed by index can be put back at its position. */
  lemma RemoveViaIndexReinsert(t: Transition, index: nat)
    requires index < |t.symbol.values|
    ensures var r := RemoveSymbolViaIndex(t, index).symbol.values;
      r[..index] + [t.symbol.values[index]] + r[index..] == t.symbol.values
  {
    RemoveAtReinsert(t.symbol.values, index);
  }
}
