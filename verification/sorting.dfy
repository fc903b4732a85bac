/** `Array.prototype.sort()` with no comparator on lists of distinct strings,
    as the script applies it to class names (script.js:106) and month keys
    (script.js:201): the result is strictly ascending and, for a given set of
    strings, there is only one such list. */
module Sorting {
  import opened Text

  /** Every string comes before every later one, so none repeats. */
  predicate StrictlyAscending(ks: seq<string>) {
    forall i, j | 0 <= i < j < |ks| :: LexLt(ks[i], ks[j])
  }

  /** A string below all of an ascending list can go in front of it. */
  lemma PrependAscending(h: string, t: seq<string>)
    requires StrictlyAscending(t)
    requires forall y | y in t :: LexLt(h, y)
    ensures StrictlyAscending([h] + t)
  {
    var r := [h] + t;
    forall i, j | 0 <= i < j < |r|
      ensures LexLt(r[i], r[j])
    {
      if i == 0 {
        assert r[j] == t[j - 1];
      } else {
        assert r[i] == t[i - 1] && r[j] == t[j - 1];
      }
    }
  }

  /** Dropping the first string keeps a list ascending. */
  lemma AscendingTail(ks: seq<string>)
    requires StrictlyAscending(ks) && |ks| > 0
    ensures StrictlyAscending(ks[1..])
  {
    forall i, j | 0 <= i < j < |ks| - 1
      ensures LexLt(ks[1..][i], ks[1..][j])
    {
      assert ks[1..][i] == ks[i + 1] && ks[1..][j] == ks[j + 1];
    }
  }

  /** Puts `x` at its place in an ascending list; nothing changes if it is
      already there. */
  function InsertSorted(ks: seq<string>, x: string): (r: seq<string>)
    requires StrictlyAscending(ks)
    ensures StrictlyAscending(r)
    ensures forall y :: y in r <==> y in ks || y == x
    decreases |ks|
  {
    if |ks| == 0 then [x]
    else if x == ks[0] then ks
    else if LexLe(x, ks[0]) then
      forall y | y in ks
        ensures LexLt(x, y)
      {
        if y != ks[0] {
          var j :| 0 <= j < |ks| && ks[j] == y;
          LexLtTransitive(x, ks[0], y);
        }
      }
      PrependAscending(x, ks);
      [x] + ks
    else
      AscendingTail(ks);
      var rest := InsertSorted(ks[1..], x);
      LexLeTotal(x, ks[0]);
      forall y | y in rest
        ensures LexLt(ks[0], y)
      {
        if y != x {
          var j :| 0 <= j < |ks| - 1 && ks[1..][j] == y;
          assert ks[j + 1] == y;
        }
      }
      PrependAscending(ks[0], rest);
      assert ks == [ks[0]] + ks[1..];
      [ks[0]] + rest
  }

  /** `Array.from(new Set(xs)).sort()`: each string of `xs` once, in
      ascending order. */
  function SortDistinct(xs: seq<string>): (r: seq<string>)
    ensures StrictlyAscending(r)
    ensures forall y :: y in r <==> y in xs
    decreases |xs|
  {
    if |xs| == 0 then []
    else
      assert xs == [xs[0]] + xs[1..];
      InsertSorted(SortDistinct(xs[1..]), xs[0])
  }

  /** The first string of an ascending list is below all the others. */
  lemma HeadIsLeast(ks: seq<string>, y: string)
    requires StrictlyAscending(ks) && y in ks && y != ks[0]
    ensures LexLt(ks[0], y)
  {
    var j :| 0 <= j < |ks| && ks[j] == y;
  }

  /** Only the empty list has no element. */
  lemma NothingInEmpty(b: seq<string>)
    ensures (forall y :: y !in b) ==> b == []
  {
    if |b| > 0 {
      assert b[0] in b;
    }
  }

  /** Two ascending lists with the same strings are the same list, so a
      sorted list of distinct strings does not depend on how it was
      computed. */
  lemma {:induction false} AscendingUnique(a: seq<string>, b: seq<string>)
    requires StrictlyAscending(a) && StrictlyAscending(b)
    requires forall y :: y in a <==> y in b
    ensures a == b
    decreases |a|
  {
    if |a| > 0 {
      assert a[0] in b;
      if a[0] != b[0] {
        assert b[0] in a;
        HeadIsLeast(a, b[0]);
        HeadIsLeast(b, a[0]);
        LexLtTransitive(a[0], b[0], a[0]);
        assert false;
      }
      var a', b' := a[1..], b[1..];
      AscendingTail(a);
      AscendingTail(b);
      forall y
        ensures y in a' <==> y in b'
      {
        if y in a' {
          var j :| 0 <= j < |a'| && a'[j] == y;
          assert a[j + 1] == y && LexLt(a[0], a[j + 1]);
          assert y in b && y != b[0];
          assert b == [b[0]] + b';
        }
        if y in b' {
          var j :| 0 <= j < |b'| && b'[j] == y;
          assert b[j + 1] == y && LexLt(b[0], b[j + 1]);
          assert y in a && y != a[0];
          assert a == [a[0]] + a';
        }
      }
      AscendingUnique(a', b');
      assert a == [a[0]] + a' && b == [b[0]] + b';
    } else {
      NothingInEmpty(b);
    }
  }
}
