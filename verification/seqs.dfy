/** The array operations the script uses on its two lists: `splice(i, 1)` and
    `filter`, and what it means for one list to be a sub-list of another. */
module Seqs {

  /** `xs.splice(i, 1)` with an index taken from a rendered row: the element
      at `i` goes, the ones before stay, the ones after move down by one. An
      index past the end removes nothing. */
  function RemoveAt<T>(xs: seq<T>, i: nat): (r: seq<T>)
    ensures i < |xs| ==> |r| == |xs| - 1 && r[..i] == xs[..i] && r[i..] == xs[i + 1..]
    ensures |xs| <= i ==> r == xs
  {
    if i < |xs| then xs[..i] + xs[i + 1..] else xs
  }

  /** Putting the removed element back where it was restores the list, so
      removal takes out exactly one occurrence of `xs[i]`. */
  lemma RemoveAtReinsert<T>(xs: seq<T>, i: nat)
    requires i < |xs|
    ensures RemoveAt(xs, i)[..i] + [xs[i]] + RemoveAt(xs, i)[i..] == xs
    ensures multiset(RemoveAt(xs, i)) + multiset{xs[i]} == multiset(xs)
  {
    var r := RemoveAt(xs, i);
    assert xs == xs[..i] + [xs[i]] + xs[i + 1..];
    assert r == xs[..i] + xs[i + 1..];
  }

  /** `a` is `b` with some elements dropped and the rest kept in order. */
  ghost predicate IsSubsequence<T>(a: seq<T>, b: seq<T>)
    decreases |b|
  {
    |a| == 0 || (|b| > 0 && ((a[0] == b[0] && IsSubsequence(a[1..], b[1..])) || IsSubsequence(a, b[1..])))
  }

  /** `xs.filter(p)`: the elements that pass, in their original order. */
  function Keep<T(==)>(xs: seq<T>, p: T -> bool): (r: seq<T>)
    ensures |r| <= |xs|
    ensures IsSubsequence(r, xs)
    ensures forall x | x in r :: x in xs && p(x)
    ensures forall x | x in xs && p(x) :: x in r
    ensures forall x {:trigger multiset(r)[x]} | x in xs :: multiset(r)[x] == if p(x) then multiset(xs)[x] else 0
    ensures (forall x | x in xs :: p(x)) ==> r == xs
    decreases |xs|
  {
    if |xs| == 0 then []
    else
      var rest := Keep(xs[1..], p);
      assert xs == [xs[0]] + xs[1..];
      KeepCountsCons(xs[0], xs[1..], rest, p);
      if p(xs[0]) then
        assert ([xs[0]] + rest)[1..] == rest;
        [xs[0]] + rest
      else
        rest
  }

  /** The step of `Keep`'s count: if `rest` keeps each element of `tail`
      that passes as often as `tail` has it, then adding `x0` in front of both
      when it passes (and to `tail` alone otherwise) keeps that so. */
  lemma KeepCountsCons<T>(x0: T, tail: seq<T>, rest: seq<T>, p: T -> bool)
    requires forall x | x in rest :: x in tail
    requires forall x {:trigger multiset(rest)[x]} | x in tail :: multiset(rest)[x] == if p(x) then multiset(tail)[x] else 0
    ensures var xs, r := [x0] + tail, if p(x0) then [x0] + rest else rest;
      forall x {:trigger multiset(r)[x]} | x in xs :: multiset(r)[x] == if p(x) then multiset(xs)[x] else 0
  {
    var xs, r := [x0] + tail, if p(x0) then [x0] + rest else rest;
    assert multiset(xs) == multiset{x0} + multiset(tail);
    assert p(x0) ==> multiset(r) == multiset{x0} + multiset(rest);
    forall x | x in xs
      ensures multiset(r)[x] == if p(x) then multiset(xs)[x] else 0
    {
      if x !in tail {
        assert x !in rest && multiset(rest)[x] == 0 && multiset(tail)[x] == 0;
      } else {
        assert multiset(rest)[x] == if p(x) then multiset(tail)[x] else 0;
      }
    }
  }

  /** Concatenation does not depend on grouping. */
  lemma AppendAssociative<T>(a: seq<T>, b: seq<T>, c: seq<T>)
    ensures (a + b) + c == a + (b + c)
  {
  }

  /** Filtering a concatenation filters each side. */
  lemma {:induction false} KeepAppend<T>(a: seq<T>, b: seq<T>, p: T -> bool)
    ensures Keep(a + b, p) == Keep(a, p) + Keep(b, p)
    decreases |a|
  {
    if |a| == 0 {
      assert a + b == b;
    } else {
      assert (a + b)[1..] == a[1..] + b;
      KeepAppend(a[1..], b, p);
    }
  }

  /** Only the verdicts of the predicate matter. */
  lemma {:induction false} KeepSameVerdicts<T>(xs: seq<T>, p: T -> bool, q: T -> bool)
    requires forall k | 0 <= k < |xs| :: p(xs[k]) == q(xs[k])
    ensures Keep(xs, p) == Keep(xs, q)
    decreases |xs|
  {
    if |xs| > 0 {
      KeepSameVerdicts(xs[1..], p, q);
    }
  }

  /** The test passed by what passes both tests. */
  function Both<T>(p: T -> bool, q: T -> bool): T -> bool {
    (x: T) => p(x) && q(x)
  }

  /** Two filters in a row are one filter by the conjunction. */
  lemma {:induction false} KeepTwice<T>(xs: seq<T>, p: T -> bool, q: T -> bool)
    ensures Keep(Keep(xs, p), q) == Keep(xs, Both(p, q))
    decreases |xs|
  {
    if |xs| > 0 {
      KeepTwice(xs[1..], p, q);
      if p(xs[0]) {
        assert Keep(xs, p) == [xs[0]] + Keep(xs[1..], p);
        assert ([xs[0]] + Keep(xs[1..], p))[1..] == Keep(xs[1..], p);
      }
    }
  }
}
