/** The two CSV exports (script.js lines 156-160 and 163-168). Every cell is
    written as `"` + the cell with each `"` doubled + `"`, cells are joined
    by `,` and rows by `\n`. The script only writes CSV; the reader defined
    here is the inverse used to state what a written file holds. */
module Csv {
  import opened Wrappers
  import opened Text
  import opened Seqs
  import opened Records
  import opened Counting
  import opened Summaries

  // ------------------------------------------------------------ writing

  /** `String(c).replace(/"/g, '""')`: every quote doubled, every other
      character kept. */
  function Escape(f: string): (r: string)
    ensures |r| >= |f|
    decreases |f|
  {
    if |f| == 0 then ""
    else
      assert f == [f[0]] + f[1..];
      (if f[0] == '"' then "\"\"" else [f[0]]) + Escape(f[1..])
  }

  /** A text without quotes is written as it is; each quote adds one
      character. */
  lemma {:induction false} EscapeLength(f: string)
    ensures |Escape(f)| == |f| + multiset(f)['"']
    ensures '"' !in f ==> Escape(f) == f
    decreases |f|
  {
    if |f| > 0 {
      EscapeLength(f[1..]);
      assert f == [f[0]] + f[1..];
    }
  }

  /** One cell as written: the escaped text between two quotes, which reads
      back as the text it came from. */
  function Quote(f: string): (r: string)
    ensures |r| >= 2 && r[0] == '"' && r[|r| - 1] == '"'
    ensures ReadField(r) == Some((f, ""))
  {
    ReadQuotedEscape(f, "");
    assert ("\"" + Escape(f) + "\"")[1..] == Escape(f) + "\"" + "";
    "\"" + Escape(f) + "\""
  }

  function QuoteAll(fs: seq<string>): (r: seq<string>)
    ensures |r| == |fs|
    ensures forall i | 0 <= i < |fs| :: r[i] == Quote(fs[i])
    decreases |fs|
  {
    if |fs| == 0 then [] else [Quote(fs[0])] + QuoteAll(fs[1..])
  }

  /** `r.map(quote).join(',')`: a row is written as nothing exactly when it
      has no cells. */
  function EncodeRow(fs: seq<string>): (r: string)
    ensures r == "" <==> |fs| == 0
  {
    Join(QuoteAll(fs), ",")
  }

  function EncodeRows(rows: seq<seq<string>>): (r: seq<string>)
    ensures |r| == |rows|
    ensures forall i | 0 <= i < |rows| :: r[i] == EncodeRow(rows[i])
    decreases |rows|
  {
    if |rows| == 0 then [] else [EncodeRow(rows[0])] + EncodeRows(rows[1..])
  }

  /** `rows.map(encodeRow).join('\n')`: no rows are written as nothing,
      and rows whose first row has a cell as a text that is not empty. */
  function Encode(rows: seq<seq<string>>): (r: string)
    ensures |rows| == 0 ==> r == ""
    ensures |rows| > 0 && |rows[0]| > 0 ==> r != ""
  {
    Join(EncodeRows(rows), "\n")
  }

  // ------------------------------------------------------------ reading

  /** Reads the rest of a quoted cell, just after its opening quote: `""`
      stands for one quote and a lone `"` closes the cell. Gives the cell
      and what follows it. */
  function ReadQuoted(s: string): (r: Option<(string, string)>)
    ensures r.Some? ==> |r.value.1| < |s|
    decreases |s|
  {
    if |s| == 0 then None
    else if s[0] == '"' then
      if |s| >= 2 && s[1] == '"' then
        match ReadQuoted(s[2..])
        case None => None
        case Some((f, rest)) => Some(("\"" + f, rest))
      else Some(("", s[1..]))
    else
      match ReadQuoted(s[1..])
      case None => None
      case Some((f, rest)) => Some(([s[0]] + f, rest))
  }

  /** Reads one quoted cell at the start of `s`. */
  function ReadField(s: string): (r: Option<(string, string)>)
    ensures r.Some? ==> |r.value.1| < |s|
  {
    if |s| > 0 && s[0] == '"' then ReadQuoted(s[1..]) else None
  }

  /** Reads the cells of one row, separated by `,`. */
  function ReadRow(s: string): (r: Option<(seq<string>, string)>)
    ensures r.Some? ==> |r.value.0| >= 1 && |r.value.1| < |s|
    decreases |s|
  {
    match ReadField(s)
    case None => None
    case Some((f, rest)) =>
      if |rest| > 0 && rest[0] == ',' then
        match ReadRow(rest[1..])
        case None => None
        case Some((fs, after)) => Some(([f] + fs, after))
      else Some(([f], rest))
  }

  /** Reads rows separated by `\n` up to the end of the text. */
  function ReadRows(s: string): (r: Option<seq<seq<string>>>)
    ensures r.Some? ==> |r.value| >= 1
    decreases |s|
  {
    match ReadRow(s)
    case None => None
    case Some((row, rest)) =>
      if |rest| == 0 then Some([row])
      else if rest[0] == '\n' then
        match ReadRows(rest[1..])
        case None => None
        case Some(rows) => Some([row] + rows)
      else None
  }

  /** The rows of a CSV text; the empty text has none. */
  function Decode(s: string): Option<seq<seq<string>>> {
    if |s| == 0 then Some([]) else ReadRows(s)
  }

  // --------------------------------------------------------- round trip

  /** A lone quote closes the cell. */
  lemma ReadQuotedClose(tail: string)
    requires |tail| == 0 || tail[0] != '"'
    ensures ReadQuoted("\"" + tail) == Some(("", tail))
  {
    assert ("\"" + tail)[1..] == tail;
  }

  /** A doubled quote reads as one quote of the cell. */
  lemma ReadQuotedPair(s: string, f: string, tail: string)
    requires ReadQuoted(s) == Some((f, tail))
    ensures ReadQuoted("\"\"" + s) == Some(("\"" + f, tail))
  {
    assert ("\"\"" + s)[2..] == s;
  }

  /** Any other character is a character of the cell. */
  lemma ReadQuotedChar(c: char, s: string, f: string, tail: string)
    requires c != '"' && ReadQuoted(s) == Some((f, tail))
    ensures ReadQuoted([c] + s) == Some(([c] + f, tail))
  {
    assert ([c] + s)[1..] == s;
  }

  /** An escaped cell followed by its closing quote reads back as the cell,
      whatever follows as long as it does not start with a quote. */
  lemma {:induction false} ReadQuotedEscape(f: string, tail: string)
    requires |tail| == 0 || tail[0] != '"'
    ensures ReadQuoted(Escape(f) + "\"" + tail) == Some((f, tail))
    decreases |f|
  {
    if |f| == 0 {
      ReadQuotedClose(tail);
    } else {
      ReadQuotedEscape(f[1..], tail);
      var s' := Escape(f[1..]) + "\"" + tail;
      if f[0] == '"' {
        ReadQuotedPair(s', f[1..], tail);
        assert Escape(f) == "\"\"" + Escape(f[1..]);
        assert Escape(f) + "\"" + tail == "\"\"" + s';
        assert "\"" + f[1..] == f;
      } else {
        ReadQuotedChar(f[0], s', f[1..], tail);
        assert Escape(f) == [f[0]] + Escape(f[1..]);
        assert Escape(f) + "\"" + tail == [f[0]] + s';
        assert [f[0]] + f[1..] == f;
      }
    }
  }

  /** A written cell reads back as itself, with what follows left over. */
  lemma ReadFieldQuote(f: string, tail: string)
    requires |tail| == 0 || tail[0] != '"'
    ensures ReadField(Quote(f) + tail) == Some((f, tail))
  {
    ReadQuotedEscape(f, tail);
    assert (Quote(f) + tail)[1..] == Escape(f) + "\"" + tail;
  }

  /** A written row reads back as its cells, with what follows left over. */
  lemma {:induction false} ReadRowEncode(fs: seq<string>, tail: string)
    requires |fs| >= 1
    requires |tail| == 0 || (tail[0] != ',' && tail[0] != '"')
    ensures ReadRow(EncodeRow(fs) + tail) == Some((fs, tail))
    decreases |fs|
  {
    if |fs| == 1 {
      assert EncodeRow(fs) == Quote(fs[0]);
      ReadRowLast(fs[0], tail);
      assert [fs[0]] == fs;
    } else {
      EncodeRowCons(fs);
      ReadRowEncode(fs[1..], tail);
      ReadRowCons(fs[0], fs[1..], EncodeRow(fs[1..]) + tail, tail);
      AppendAssociative(Quote(fs[0]) + ",", EncodeRow(fs[1..]), tail);
      assert [fs[0]] + fs[1..] == fs;
    }
  }

  /** The last cell of a row reads back with what follows left over. */
  lemma ReadRowLast(f: string, tail: string)
    requires |tail| == 0 || (tail[0] != ',' && tail[0] != '"')
    ensures ReadRow(Quote(f) + tail) == Some(([f], tail))
  {
    ReadFieldQuote(f, tail);
  }

  /** A written cell and a comma in front of a readable row add that cell. */
  lemma ReadRowCons(f: string, fs: seq<string>, s: string, tail: string)
    requires ReadRow(s) == Some((fs, tail))
    ensures ReadRow(Quote(f) + "," + s) == Some(([f] + fs, tail))
  {
    var rest := "," + s;
    ReadFieldQuote(f, rest);
    AppendAssociative(Quote(f), ",", s);
    assert rest[1..] == s;
  }

  /** A row of two cells or more is its first cell, a comma and the rest. */
  lemma EncodeRowCons(fs: seq<string>)
    requires |fs| >= 2
    ensures EncodeRow(fs) == Quote(fs[0]) + "," + EncodeRow(fs[1..])
  {
    assert QuoteAll(fs)[1..] == QuoteAll(fs[1..]);
  }

  /** Written rows read back as themselves, provided no row is empty (an
      empty row is written as nothing at all, which has no cell to read). */
  lemma {:induction false} ReadRowsEncode(rows: seq<seq<string>>)
    requires |rows| >= 1
    requires forall i | 0 <= i < |rows| :: |rows[i]| >= 1
    ensures ReadRows(Encode(rows)) == Some(rows)
    decreases |rows|
  {
    if |rows| == 1 {
      assert Encode(rows) == EncodeRow(rows[0]);
      ReadRowEncode(rows[0], "");
      assert EncodeRow(rows[0]) + "" == EncodeRow(rows[0]);
      assert [rows[0]] == rows;
    } else {
      EncodeCons(rows);
      ReadRowsEncode(rows[1..]);
      ReadRowsCons(rows[0], Encode(rows[1..]), rows[1..]);
      assert [rows[0]] + rows[1..] == rows;
    }
  }

  /** A written row, a line feed and a text of rows read back as that row
      followed by those rows. */
  lemma ReadRowsCons(row: seq<string>, s: string, rows: seq<seq<string>>)
    requires |row| >= 1 && ReadRows(s) == Some(rows)
    ensures ReadRows(EncodeRow(row) + "\n" + s) == Some([row] + rows)
  {
    var rest := "\n" + s;
    ReadRowEncode(row, rest);
    AppendAssociative(EncodeRow(row), "\n", s);
    assert rest[1..] == s;
  }

  /** Two rows or more are the first row written, a line feed and the rest. */
  lemma EncodeCons(rows: seq<seq<string>>)
    requires |rows| >= 2
    ensures Encode(rows) == EncodeRow(rows[0]) + "\n" + Encode(rows[1..])
  {
    assert EncodeRows(rows)[1..] == EncodeRows(rows[1..]);
  }

  /** Reading what was written gives back the rows. */
  lemma DecodeEncode(rows: seq<seq<string>>)
    requires forall i | 0 <= i < |rows| :: |rows[i]| >= 1
    ensures Decode(Encode(rows)) == Some(rows)
  {
    if |rows| > 0 {
      ReadRowsEncode(rows);
    }
  }

  // ------------------------------------------------------------ exports

  /** The header of the lateness export: name, class, date, time, reason. */
  const LatenessHeader: seq<string> := ["Nama", "Kelas", "Tanggal", "Jam", "Alasan"]

  /** The header of the monthly export: month, count. */
  const MonthlyHeader: seq<string> := ["Bulan", "Jumlah"]

  function LatenessRows(records: seq<Lateness>): (r: seq<seq<string>>)
    ensures |r| == |records|
    ensures forall i | 0 <= i < |records| ::
      r[i] == [records[i].name, records[i].klass, records[i].date, records[i].time, records[i].reason]
  {
    seq(|records|, i requires 0 <= i < |records| =>
      [records[i].name, records[i].klass, records[i].date, records[i].time, records[i].reason])
  }

  /** The lateness export (script.js:156-160): nothing when there are no
      records; otherwise a file that reads back as the header followed by
      one row per record, in list order, with its five fields. */
  function ExportLateness(records: seq<Lateness>): (r: Option<string>)
    ensures r.None? <==> |records| == 0
    ensures r.Some? ==>
      var d := Decode(r.value);
      && d.Some?
      && |d.value| == |records| + 1
      && d.value[0] == LatenessHeader
      && forall i | 0 <= i < |records| ::
           d.value[i + 1] == [records[i].name, records[i].klass, records[i].date, records[i].time, records[i].reason]
  {
    if |records| == 0 then None
    else
      var rows := [LatenessHeader] + LatenessRows(records);
      DecodeEncode(rows);
      Some(Encode(rows))
  }

  function MonthlyRows(m: seq<Entry>): (r: seq<seq<string>>)
    ensures |r| == |m|
    ensures forall i | 0 <= i < |m| :: r[i] == [m[i].key, DecimalString(m[i].count)]
  {
    seq(|m|, i requires 0 <= i < |m| => [m[i].key, DecimalString(m[i].count)])
  }

  /** The monthly table as written reads back as its header and rows, and
      every count column reads back as the count. */
  lemma MonthlyReadBack(m: seq<Entry>)
    ensures var d := Decode(Encode([MonthlyHeader] + MonthlyRows(m)));
      && d.Some?
      && |d.value| == |m| + 1
      && d.value[0] == MonthlyHeader
      && forall i | 0 <= i < |m| ::
           && d.value[i + 1] == [m[i].key, DecimalString(m[i].count)]
           && DecimalValue(d.value[i + 1][1]) == m[i].count
  {
    var body := MonthlyRows(m);
    var rows := [MonthlyHeader] + body;
    forall i | 0 <= i < |rows|
      ensures |rows[i]| >= 1
    {
      if i > 0 {
        assert rows[i] == body[i - 1];
      }
    }
    DecodeEncode(rows);
    forall i | 0 <= i < |m|
      ensures rows[i + 1] == [m[i].key, DecimalString(m[i].count)]
      ensures DecimalValue(DecimalString(m[i].count)) == m[i].count
    {
      assert rows[i + 1] == body[i];
      DecimalRoundTrip(m[i].count);
    }
  }

  /** The monthly export (script.js:163-168): nothing when there are no
      records; otherwise a file that reads back as the header followed by
      one row per month, ascending, holding the month and its count in
      decimal. */
  function ExportMonthly(records: seq<Lateness>): (r: Option<string>)
    ensures r.None? <==> |records| == 0
    ensures r.Some? ==>
      var d := Decode(r.value);
      var m := MonthCounts(records);
      && d.Some?
      && |d.value| == |m| + 1
      && d.value[0] == MonthlyHeader
      && forall i | 0 <= i < |m| ::
           && d.value[i + 1] == [m[i].key, DecimalString(m[i].count)]
           && DecimalValue(d.value[i + 1][1]) == m[i].count
  {
    if |records| == 0 then None
    else
      var m := MonthCounts(records);
      MonthlyReadBack(m);
      Some(Encode([MonthlyHeader] + MonthlyRows(m)))
  }
}
