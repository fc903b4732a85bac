/** The filter panel over the lateness list (script.js lines 145-150): up to
    four criteria, each applied only when its field is not empty. */
module LatenessFilter {
  import opened Text
  import opened Seqs
  import opened Records

  /** The four fields of the panel; an empty string means "no constraint".
      `from` and `to` are ISO 8601 dates `YYYY-MM-DD`, which compare as
      strings in calendar order. */
  datatype Criteria = Criteria(query: string, klass: string, from: string, to: string)

  /** No criterion set: the reset state of the panel. */
  const NoCriteria := Criteria("", "", "", "")

  /** The lower-cased query occurs in the lower-cased name or reason. */
  predicate Mentions(r: Lateness, q: string) {
    Includes(Lower(r.name), q) || Includes(Lower(r.reason), q)
  }

  /** The test of each criterion, on its own. */
  function ByText(q: string): Lateness -> bool { (x: Lateness) => Mentions(x, q) }
  function ByClass(k: string): Lateness -> bool { (x: Lateness) => x.klass == k }
  function ByFrom(d: string): Lateness -> bool { (x: Lateness) => LexLe(d, x.date) }
  function ByTo(d: string): Lateness -> bool { (x: Lateness) => LexLe(x.date, d) }

  /** One `if (field) data = data.filter(p)` step. */
  function Stage(xs: seq<Lateness>, on: bool, p: Lateness -> bool): seq<Lateness> {
    if on then Keep(xs, p) else xs
  }

  /** The filter as the script runs it: one pass per criterion that is set,
      in the order text, class, from, to. */
  function Apply(records: seq<Lateness>, c: Criteria): (r: seq<Lateness>)
    ensures forall x | x in r :: x in records && Meets(x, c)
    ensures forall x | x in records && Meets(x, c) :: x in r
    ensures c == NoCriteria ==> r == records
  {
    var q := Lower(c.query);
    var byText := Stage(records, q != "", ByText(q));
    var byClass := Stage(byText, c.klass != "", ByClass(c.klass));
    var byFrom := Stage(byClass, c.from != "", ByFrom(c.from));
    Stage(byFrom, c.to != "", ByTo(c.to))
  }

  /** The reference definition: a record passes when it meets every
      criterion that is set. */
  predicate Meets(x: Lateness, c: Criteria): (r: bool)
    ensures c == NoCriteria ==> r
  {
    && (c.query == "" || Mentions(x, Lower(c.query)))
    && (c.klass == "" || x.klass == c.klass)
    && (c.from == "" || LexLe(c.from, x.date))
    && (c.to == "" || LexLe(x.date, c.to))
  }

  /** The text search ignores case: lower-casing the query first changes
      no verdict, since the script lower-cases it anyway. */
  lemma QueryCaseInsensitive(x: Lateness, c: Criteria)
    ensures Meets(x, c.(query := Lower(c.query))) == Meets(x, c)
  {
    LowerIdempotent(c.query);
    assert |Lower(c.query)| == |c.query|;
  }

  /** A test that passes everything when it is switched off. */
  function Gate(on: bool, p: Lateness -> bool): Lateness -> bool {
    (x: Lateness) => !on || p(x)
  }

  /** A step is a filter by its gated test. */
  lemma StageIsKeep(xs: seq<Lateness>, on: bool, p: Lateness -> bool)
    ensures Stage(xs, on, p) == Keep(xs, Gate(on, p))
  {
    if on {
      KeepSameVerdicts(xs, p, Gate(on, p));
    }
  }

  /** The four gated tests of a set of criteria. */
  function Gates(c: Criteria): seq<Lateness -> bool> {
    var q := Lower(c.query);
    [Gate(q != "", ByText(q)), Gate(c.klass != "", ByClass(c.klass)),
     Gate(c.from != "", ByFrom(c.from)), Gate(c.to != "", ByTo(c.to))]
  }

  /** The four steps are four filters in a row. */
  lemma ApplyIsFourFilters(records: seq<Lateness>, c: Criteria)
    ensures Apply(records, c) == Keep(Keep(Keep(Keep(records, Gates(c)[0]), Gates(c)[1]), Gates(c)[2]), Gates(c)[3])
  {
    var q := Lower(c.query);
    var s1 := Stage(records, q != "", ByText(q));
    var s2 := Stage(s1, c.klass != "", ByClass(c.klass));
    var s3 := Stage(s2, c.from != "", ByFrom(c.from));
    StageIsKeep(records, q != "", ByText(q));
    StageIsKeep(s1, c.klass != "", ByClass(c.klass));
    StageIsKeep(s2, c.from != "", ByFrom(c.from));
    StageIsKeep(s3, c.to != "", ByTo(c.to));
  }

  /** The reference test as a function value. */
  function MeetsAll(c: Criteria): Lateness -> bool {
    (x: Lateness) => Meets(x, c)
  }

  /** Together the gates admit exactly the records that meet the criteria. */
  lemma GatesAreMeets(x: Lateness, c: Criteria)
    ensures Both(Both(Both(Gates(c)[0], Gates(c)[1]), Gates(c)[2]), Gates(c)[3])(x) == MeetsAll(c)(x)
  {
    assert Lower(c.query) == "" <==> c.query == "" by {
      assert |Lower(c.query)| == |c.query|;
    }
  }

  /** The staged passes agree with one pass of the conjunction, so the
      result is the order-preserving sub-list of the records that meet every
      criterion that is set. */
  lemma ApplyIsConjunction(records: seq<Lateness>, c: Criteria)
    ensures Apply(records, c) == Keep(records, MeetsAll(c))
    ensures IsSubsequence(Apply(records, c), records)
  {
    var g := Gates(c);
    var all := Both(Both(Both(g[0], g[1]), g[2]), g[3]);
    ApplyIsFourFilters(records, c);
    KeepTwice(records, g[0], g[1]);
    KeepTwice(records, Both(g[0], g[1]), g[2]);
    KeepTwice(records, Both(Both(g[0], g[1]), g[2]), g[3]);
    assert Apply(records, c) == Keep(records, all);
    forall k | 0 <= k < |records|
      ensures all(records[k]) == MeetsAll(c)(records[k])
    {
      GatesAreMeets(records[k], c);
    }
    KeepSameVerdicts(records, all, MeetsAll(c));
  }

  /** The lower date bound is inclusive: with `from = 2024-02-01` a record
      of 2024-01-31 is dropped and one of 2024-02-01 is kept. */
  lemma FromBoundExample(a: Lateness, b: Lateness)
    requires a.date == "2024-01-31" && b.date == "2024-02-01"
    ensures !Meets(a, Criteria("", "", "2024-02-01", ""))
    ensures Meets(b, Criteria("", "", "2024-02-01", ""))
  {
    var month, day1, day31 := "2024-0", "2-01", "1-31";
    assert "2024-02-01" == month + day1 && "2024-01-31" == month + day31;
    LexLeCommonPrefix(month, day1, day31);
    assert day1[0] == '2' && day31[0] == '1';
    LexLeReflexive("2024-02-01");
  }
}
