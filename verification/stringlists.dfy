/**
 The list operations a transition label is edited with: the order-preserving
 filter behind `Array.prototype.filter`, the single-element removal behind
 `Array.prototype.splice(start, 1)`, and the facts that tie them together.
 Lists are `seq<string>`; a JavaScript string compared with `!==` is compared
 by content, which is `seq<char>` equality here.
 */
module StringLists {

  /** `a` is obtained from `b` by deleting some elements, keeping the order
      of the rest (decided greedily from the front). */
  predicate IsSubsequence(a: seq<string>, b: seq<string>)
    decreases |b|
  {
    if a == [] then true
    else if b == [] then false
    else if a[0] == b[0] then IsSubsequence(a[1..], b[1..])
    else IsSubsequence(a, b[1..])
  }

  /** Every element of `xs` that is not `s`, in its original order. */
  function Filter(xs: seq<string>, s: string): (r: seq<string>)
    ensures s !in r
    ensures forall x :: x != s ==> multiset(r)[x] == multiset(xs)[x]
    ensures IsSubsequence(r, xs)
    ensures |r| == |xs| - multiset(xs)[s]
  {
    if xs == [] then []
    else
      assert xs == [xs[0]] + xs[1..];
      var rest := Filter(xs[1..], s);
      if xs[0] != s then
        var r := [xs[0]] + rest;
        assert r[1..] == rest;
        r
      else
        rest
  }

  /** `xs` without the element at position `k`; a position past the end
      removes nothing. */
  function RemoveAt(xs: seq<string>, k: nat): (r: seq<string>)
    ensures k < |xs| ==> |r| == |xs| - 1
    ensures k < |xs| ==> forall j :: 0 <= j < k ==> r[j] == xs[j]
    ensures k < |xs| ==> forall j :: k <= j < |r| ==> r[j] == xs[j + 1]
    ensures k < |xs| ==> multiset(r) + multiset{xs[k]} == multiset(xs)
    ensures |xs| <= k ==> r == xs
  {
    if k < |xs| then
      assert xs == xs[..k] + [xs[k]] + xs[k + 1..];
      xs[..k] + xs[k + 1..]
    else xs
  }

  /** The position `splice(start, ...)` starts at on a list of length `len`:
      a negative start counts back from the end and stops at 0, a start past
      the end stops at the end. */
  function SpliceStart(start: int, len: nat): (k: nat)
    ensures k <= len
  {
    if start < 0 then
      (if len + start < 0 then 0 else len + start)
    else if start < len then start
    else len
  }

  /** A subsequence never holds more copies of any element than its source. */
  lemma {:induction false} SubsequenceMultiset(a: seq<string>, b: seq<string>)
    requires IsSubsequence(a, b)
    ensures multiset(a) <= multiset(b)
    decreases |b|
  {
    if a == [] {
    } else if b == [] {
      assert false;
    } else if a[0] == b[0] {
      SubsequenceMultiset(a[1..], b[1..]);
      assert a == [a[0]] + a[1..];
      assert b == [b[0]] + b[1..];
    } else {
      SubsequenceMultiset(a, b[1..]);
      assert b == [b[0]] + b[1..];
    }
  }

  /** The contract of `Filter` pins its result down: any order-preserving
      selection from `xs` that drops every `s` and keeps every other element
      is `Filter(xs, s)`. */
  lemma {:induction false} FilterUnique(xs: seq<string>, s: string, r: seq<string>)
    requires IsSubsequence(r, xs)
    requires s !in r
    requires forall x :: x != s ==> multiset(r)[x] == multiset(xs)[x]
    ensures r == Filter(xs, s)
    decreases |xs|
  {
    if xs == [] {
    } else {
      var h, t := xs[0], xs[1..];
      assert xs == [h] + t;
      if r == [] {
        forall x | x != s
          ensures multiset(t)[x] == 0
        {
          assert multiset(xs)[x] == 0;
        }
        assert multiset(xs)[h] >= 1;
        assert h == s;
        assert IsSubsequence(r, t);
        FilterUnique(t, s, r);
      } else if r[0] == h {
        assert h != s;
        assert r == [h] + r[1..];
        assert IsSubsequence(r[1..], t);
        forall x | x != s
          ensures multiset(r[1..])[x] == multiset(t)[x]
        {
          assert multiset(r)[x] == multiset(r[1..])[x] + multiset{h}[x];
        }
        FilterUnique(t, s, r[1..]);
      } else {
        assert IsSubsequence(r, t);
        SubsequenceMultiset(r, t);
        assert multiset(r)[h] <= multiset(t)[h] < multiset(xs)[h];
        forall x | x != s
          ensures multiset(r)[x] == multiset(t)[x]
        {
          assert multiset(xs)[x] == multiset(t)[x];
        }
        FilterUnique(t, s, r);
      }
    }
  }

  /** Filtering a concatenation filters each part. */
  lemma {:induction false} FilterAppend(a: seq<string>, b: seq<string>, s: string)
    ensures Filter(a + b, s) == Filter(a, s) + Filter(b, s)
    decreases |a|
  {
    if a == [] {
      assert a + b == b;
    } else {
      assert (a + b)[1..] == a[1..] + b;
      FilterAppend(a[1..], b, s);
    }
  }

  /** Filtering out a value that is absent changes nothing. */
  lemma {:induction false} FilterAbsent(xs: seq<string>, s: string)
    requires s !in xs
    ensures Filter(xs, s) == xs
    decreases |xs|
  {
    if xs != [] {
      FilterAbsent(xs[1..], s);
      assert xs == [xs[0]] + xs[1..];
    }
  }

  /** Filtering twice by the same value is filtering once. */
  lemma FilterIdempotent(xs: seq<string>, s: string)
    ensures Filter(Filter(xs, s), s) == Filter(xs, s)
  {
    FilterAbsent(Filter(xs, s), s);
  }

  /** Filters by two values can be applied in either order. */
  lemma {:induction false} FilterCommutes(xs: seq<string>, a: string, b: string)
    ensures Filter(Filter(xs, a), b) == Filter(Filter(xs, b), a)
    decreases |xs|
  {
    if xs != [] {
      FilterCommutes(xs[1..], a, b);
      FilterAppend([xs[0]], Filter(xs[1..], a), b);
      FilterAppend([xs[0]], Filter(xs[1..], b), a);
      FilterAppend([], Filter(xs[1..], a), b);
      FilterAppend([], Filter(xs[1..], b), a);
    }
  }

  /** Removing the one position that holds the only copy of `s` is the same
      as filtering `s` out. */
  lemma RemoveAtSoleOccurrence(xs: seq<string>, k: nat, s: string)
    requires k < |xs| && xs[k] == s
    requires multiset(xs)[s] == 1
    ensures RemoveAt(xs, k) == Filter(xs, s)
  {
    var pre, post := xs[..k], xs[k + 1..];
    assert xs == (pre + [s]) + post;
    assert multiset(xs)[s] == multiset(pre)[s] + 1 + multiset(post)[s];
    assert s !in pre && s !in post;
    FilterAppend(pre + [s], post, s);
    FilterAppend(pre, [s], s);
    assert Filter([s], s) == [];
    FilterAbsent(pre, s);
    FilterAbsent(post, s);
    assert Filter(xs, s) == pre + post;
  }

  /** Putting the removed element back at its position restores the list. */
  lemma RemoveAtReinsert(xs: seq<string>, k: nat)
    requires k < |xs|
    ensures RemoveAt(xs, k)[..k] + [xs[k]] + RemoveAt(xs, k)[k..] == xs
  {
    var r := RemoveAt(xs, k);
    assert r[..k] == xs[..k];
    assert r[k..] == xs[k + 1..];
    assert xs == xs[..k] + [xs[k]] + xs[k + 1..];
  }
}
