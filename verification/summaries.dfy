/** The summaries the script derives from its two lists: students per class
    (script.js:93), the sorted class labels of the selects (script.js:106),
    lateness records per class (script.js:175, 196) and per month
    (script.js:165-166, 200-201). */
module Summaries {
  import opened Records
  import opened Counting
  import opened Sorting

  /** The class of every student, in roster order. */
  function RosterClasses(students: seq<Student>): (r: seq<string>)
    ensures |r| == |students|
    ensures forall i | 0 <= i < |students| :: r[i] == students[i].klass
    ensures forall k :: k in r <==> exists i | 0 <= i < |students| :: students[i].klass == k
  {
    var r := seq(|students|, i requires 0 <= i < |students| => students[i].klass);
    assert forall i | 0 <= i < |students| :: r[i] == students[i].klass;
    r
  }

  /** The class of every lateness record, in list order. */
  function RecordClasses(records: seq<Lateness>): (r: seq<string>)
    ensures |r| == |records|
    ensures forall i | 0 <= i < |records| :: r[i] == records[i].klass
    ensures forall k :: k in r <==> exists i | 0 <= i < |records| :: records[i].klass == k
  {
    var r := seq(|records|, i requires 0 <= i < |records| => records[i].klass);
    assert forall i | 0 <= i < |records| :: r[i] == records[i].klass;
    r
  }

  // ------------------------------------------------------------ classes

  /** The class summary (script.js:93): one entry per class on the roster
      with the number of its students; together they count every student. */
  function RosterClassCounts(students: seq<Student>): (r: seq<Entry>)
    ensures Distinct(Keys(r))
    ensures forall k :: k in Keys(r) <==> exists i | 0 <= i < |students| :: students[i].klass == k
    ensures forall k :: Lookup(r, k) == multiset(RosterClasses(students))[k]
    ensures Total(r) == |students|
  {
    Tally(RosterClasses(students))
  }

  /** Lateness records per class (script.js:175, 196): one entry per class
      that has a record, with the number of its records; together they
      count every record. */
  function ClassCounts(records: seq<Lateness>): (r: seq<Entry>)
    ensures Distinct(Keys(r))
    ensures forall k :: k in Keys(r) <==> exists i | 0 <= i < |records| :: records[i].klass == k
    ensures forall k :: Lookup(r, k) == multiset(RecordClasses(records))[k]
    ensures Total(r) == |records|
  {
    Tally(RecordClasses(records))
  }

  /** One more record in front raises the count of its class by one and
      leaves every other class's count as it was. */
  lemma ClassCountsCons(x: Lateness, xs: seq<Lateness>)
    ensures forall k :: Lookup(ClassCounts([x] + xs), k) == Lookup(ClassCounts(xs), k) + (if k == x.klass then 1 else 0)
  {
    var cls := RecordClasses(xs);
    assert RecordClasses([x] + xs) == [x.klass] + cls;
    assert multiset([x.klass] + cls) == multiset{x.klass} + multiset(cls);
  }

  /** The class labels of both selects (script.js:106): every class on the
      roster exactly once, in ascending order. */
  function ClassLabels(students: seq<Student>): (r: seq<string>)
    ensures StrictlyAscending(r)
    ensures forall k :: k in r <==> exists i | 0 <= i < |students| :: students[i].klass == k
  {
    SortDistinct(RosterClasses(students))
  }

  /** Any ascending list of exactly the roster's classes is the list of
      labels: the labels are determined by the set of classes alone. */
  lemma ClassLabelsUnique(students: seq<Student>, labels: seq<string>)
    requires StrictlyAscending(labels)
    requires forall k :: k in labels <==> exists i | 0 <= i < |students| :: students[i].klass == k
    ensures labels == ClassLabels(students)
  {
    AscendingUnique(labels, ClassLabels(students));
  }

  /** The labels are the classes of the summary, sorted. */
  lemma ClassLabelsAreSummaryKeys(students: seq<Student>)
    ensures ClassLabels(students) == SortDistinct(Keys(RosterClassCounts(students)))
  {
    AscendingUnique(ClassLabels(students), SortDistinct(Keys(RosterClassCounts(students))));
  }

  // ------------------------------------------------------------- months

  /** `date.slice(0, 7)`: the first seven characters, or the whole date if
      it is shorter; for `YYYY-MM-DD` this is `YYYY-MM`. */
  function MonthKey(date: string): (r: string)
    ensures r <= date
    ensures |r| == if |date| < 7 then |date| else 7
  {
    date[..if |date| < 7 then |date| else 7]
  }

  /** The month key of every record, in list order. */
  function RecordMonths(records: seq<Lateness>): (r: seq<string>)
    ensures |r| == |records|
    ensures forall i | 0 <= i < |records| :: r[i] == MonthKey(records[i].date)
    ensures forall k :: k in r <==> exists i | 0 <= i < |records| :: MonthKey(records[i].date) == k
  {
    var r := seq(|records|, i requires 0 <= i < |records| => MonthKey(records[i].date));
    assert forall i | 0 <= i < |records| :: r[i] == MonthKey(records[i].date);
    r
  }

  /** The entries of the keys `ks`, in that order, with their counts in `t`. */
  function CountsOf(ks: seq<string>, t: seq<Entry>): (r: seq<Entry>)
    ensures |r| == |ks|
    ensures forall i | 0 <= i < |ks| :: r[i].key == ks[i] && r[i].count == Lookup(t, ks[i])
    decreases |ks|
  {
    if |ks| == 0 then []
    else [Entry(ks[0], Lookup(t, ks[0]))] + CountsOf(ks[1..], t)
  }

  /** Lateness records per month (script.js:200-201): the months that have a
      record, each once and in ascending order, each with the number of its
      records; together they count every record. */
  function MonthCounts(records: seq<Lateness>): (r: seq<Entry>)
    ensures StrictlyAscending(Keys(r))
    ensures forall k :: k in Keys(r) <==> exists i | 0 <= i < |records| :: MonthKey(records[i].date) == k
    ensures forall i | 0 <= i < |r| :: r[i].count == multiset(RecordMonths(records))[r[i].key] > 0
    ensures Total(r) == |records|
  {
    var months := RecordMonths(records);
    var t := Tally(months);
    var ks := SortDistinct(Keys(t));
    var r := CountsOf(ks, t);
    assert Keys(r) == ks;
    MonthTotal(ks, t, months);
    forall i | 0 <= i < |r|
      ensures r[i].count == multiset(months)[r[i].key] > 0
    {
      assert r[i].key == ks[i] && ks[i] in months;
    }
    r
  }

  /** The sum, over the keys `ks`, of how often each occurs in `xs`. */
  function CountSum(ks: seq<string>, xs: seq<string>): nat
    decreases |ks|
  {
    if |ks| == 0 then 0 else multiset(xs)[ks[0]] + CountSum(ks[1..], xs)
  }

  lemma {:induction false} CountSumEmpty(ks: seq<string>)
    ensures CountSum(ks, []) == 0
    decreases |ks|
  {
    if |ks| > 0 {
      CountSumEmpty(ks[1..]);
    }
  }

  /** One more string in `xs` adds the number of times it is among the keys. */
  lemma {:induction false} CountSumSnoc(ks: seq<string>, xs: seq<string>, x: string)
    ensures CountSum(ks, xs + [x]) == CountSum(ks, xs) + multiset(ks)[x]
    decreases |ks|
  {
    if |ks| > 0 {
      CountSumSnoc(ks[1..], xs, x);
      assert ks == [ks[0]] + ks[1..];
    }
  }

  /** A strictly ascending list holds each of its strings once. */
  lemma AscendingOnce(ks: seq<string>, x: string)
    requires StrictlyAscending(ks) && x in ks
    ensures multiset(ks)[x] == 1
    decreases |ks|
  {
    assert ks == [ks[0]] + ks[1..];
    if ks[0] == x {
      forall y | y in ks[1..]
        ensures y != x
      {
        var j :| 0 <= j < |ks| - 1 && ks[1..][j] == y;
        assert ks[j + 1] == y;
      }
      assert x !in multiset(ks[1..]);
    } else {
      AscendingTail(ks);
      AscendingOnce(ks[1..], x);
    }
  }

  /** When every string of `xs` is a key, and no key repeats, summing the
      counts of the keys counts every string of `xs` once. */
  lemma {:induction false} CountSumCovers(ks: seq<string>, xs: seq<string>)
    requires StrictlyAscending(ks)
    requires forall x | x in xs :: x in ks
    ensures CountSum(ks, xs) == |xs|
    decreases |xs|
  {
    if |xs| == 0 {
      CountSumEmpty(ks);
    } else {
      var init, last := xs[..|xs| - 1], xs[|xs| - 1];
      assert xs == init + [last];
      assert forall x | x in init :: x in xs;
      CountSumCovers(ks, init);
      CountSumSnoc(ks, init, last);
      AscendingOnce(ks, last);
    }
  }

  /** The per-month table built from the tally counts every month key. */
  lemma {:induction false} CountsOfTotal(ks: seq<string>, t: seq<Entry>, xs: seq<string>)
    requires forall k :: Lookup(t, k) == multiset(xs)[k]
    ensures Total(CountsOf(ks, t)) == CountSum(ks, xs)
    decreases |ks|
  {
    if |ks| > 0 {
      CountsOfTotal(ks[1..], t, xs);
      assert CountsOf(ks, t)[1..] == CountsOf(ks[1..], t);
    }
  }

  lemma MonthTotal(ks: seq<string>, t: seq<Entry>, months: seq<string>)
    requires ks == SortDistinct(Keys(t)) && t == Tally(months)
    ensures Total(CountsOf(ks, t)) == |months|
  {
    CountsOfTotal(ks, t, months);
    CountSumCovers(ks, months);
  }
}
