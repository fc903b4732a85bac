/** The `counts[key] = (counts[key] || 0) + 1` idiom the script uses for
    every summary (script.js lines 93, 165, 175, 196 and 200): a table of
    keys with their counts, grown one key at a time. */
module Counting {

  /** One key of the table with its count. */
  datatype Entry = Entry(key: string, count: nat)

  /** The keys of a table, in table order. */
  function Keys(t: seq<Entry>): (r: seq<string>)
    ensures |r| == |t|
    ensures forall i | 0 <= i < |t| :: r[i] == t[i].key
    decreases |t|
  {
    if |t| == 0 then [] else [t[0].key] + Keys(t[1..])
  }

  /** No key occurs twice. */
  predicate Distinct(ks: seq<string>) {
    forall i, j | 0 <= i < j < |ks| :: ks[i] != ks[j]
  }

  /** `counts[k] || 0`: the count of the first entry with key `k`, or 0. */
  function Lookup(t: seq<Entry>, k: string): (r: nat)
    ensures r > 0 ==> k in Keys(t)
    decreases |t|
  {
    if |t| == 0 then 0
    else if t[0].key == k then t[0].count
    else Lookup(t[1..], k)
  }

  /** The sum of all counts. */
  function Total(t: seq<Entry>): nat
    decreases |t|
  {
    if |t| == 0 then 0 else t[0].count + Total(t[1..])
  }

  /** One `counts[k] = (counts[k] || 0) + 1`: the count of `k` goes up by
      one and no other count changes; a new key goes after the others, an
      old key keeps its place. */
  function Bump(t: seq<Entry>, k: string): (r: seq<Entry>)
    ensures forall j :: Lookup(r, j) == Lookup(t, j) + (if j == k then 1 else 0)
    ensures k in Keys(t) ==> Keys(r) == Keys(t)
    ensures k !in Keys(t) ==> Keys(r) == Keys(t) + [k]
    ensures Total(r) == Total(t) + 1
    decreases |t|
  {
    if |t| == 0 then [Entry(k, 1)]
    else if t[0].key == k then
      assert ([Entry(k, t[0].count + 1)] + t[1..])[1..] == t[1..];
      [Entry(k, t[0].count + 1)] + t[1..]
    else
      var rest := Bump(t[1..], k);
      assert ([t[0]] + rest)[1..] == rest;
      assert Keys(t) == [t[0].key] + Keys(t[1..]);
      [t[0]] + rest
  }

  /** `xs.forEach(x => counts[x] = (counts[x] || 0) + 1)` from an empty
      table: every key of `xs` once, with as its count the number of times
      it occurs in `xs`, and the counts add up to the length of `xs`. */
  function Tally(xs: seq<string>): (r: seq<Entry>)
    ensures Distinct(Keys(r))
    ensures forall k :: k in Keys(r) <==> k in xs
    ensures forall k :: Lookup(r, k) == multiset(xs)[k]
    ensures Total(r) == |xs|
    decreases |xs|
  {
    if |xs| == 0 then []
    else
      var init := xs[..|xs| - 1];
      var last := xs[|xs| - 1];
      assert xs == init + [last];
      var r := Bump(Tally(init), last);
      assert forall k :: k in xs <==> k in init || k == last;
      r
  }

  /** In a table without repeated keys, looking up the key of an entry
      gives that entry's count. */
  lemma {:induction false} LookupAt(t: seq<Entry>, i: nat)
    requires Distinct(Keys(t)) && i < |t|
    ensures Lookup(t, t[i].key) == t[i].count
    decreases |t|
  {
    if i > 0 {
      assert Keys(t)[0] != Keys(t)[i];
      assert Distinct(Keys(t[1..])) by {
        forall a, b | 0 <= a < b < |t| - 1
          ensures Keys(t[1..])[a] != Keys(t[1..])[b]
        {
          assert Keys(t)[a + 1] != Keys(t)[b + 1];
        }
      }
      LookupAt(t[1..], i - 1);
    }
  }

  /** Every entry of a tally counts how often its key occurs, which is at
      least once. */
  lemma TallyEntries(xs: seq<string>)
    ensures forall i | 0 <= i < |Tally(xs)| ::
      Tally(xs)[i].count == multiset(xs)[Tally(xs)[i].key] > 0
  {
    var t := Tally(xs);
    forall i | 0 <= i < |t|
      ensures t[i].count == multiset(xs)[t[i].key] > 0
    {
      var k := t[i].key;
      assert Keys(t)[i] == k;
      assert k in Keys(t);
      LookupAt(t, i);
    }
  }
}
