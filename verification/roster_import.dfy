/** Reading a roster from the text of an import file (script.js lines 54-62):
    one student per line, fields separated by `,` `;` `|` or a tab, the last
    field being the class and the others, re-joined with single spaces, the
    name. */
module RosterImport {
  import opened Wrappers
  import opened Text
  import opened Seqs

  /** What an accepted line contributes: a name and a class. */
  datatype Parsed = Parsed(name: string, klass: string)

  predicate IsLineFeed(c: char) {
    c == '\n'
  }

  /** The field separators of the character class `[,;|\t]`. */
  predicate IsDelimiter(c: char) {
    c == ',' || c == ';' || c == '|' || c == '\t'
  }

  /** A `\r` in front of a `\n` belongs to the line break `\r?\n`. */
  function DropCarriageReturn(p: string): string {
    if |p| > 0 && p[|p| - 1] == '\r' then p[..|p| - 1] else p
  }

  /** `text.split(/\r?\n/)`: split at each `\n`, and every piece that was
      followed by a `\n` loses the `\r` that ended it. */
  function RawLines(text: string): (r: seq<string>)
    ensures |r| == |Separators(text, IsLineFeed)| + 1
    ensures forall i | 0 <= i < |r| :: Free(r[i], IsLineFeed)
  {
    var pieces := Split(text, IsLineFeed);
    seq(|pieces|, i requires 0 <= i < |pieces| => if i + 1 < |pieces| then DropCarriageReturn(pieces[i]) else pieces[i])
  }

  /** `.map(s => s.trim())`. */
  function TrimAll(parts: seq<string>): (r: seq<string>)
    ensures |r| == |parts|
    ensures forall i | 0 <= i < |parts| :: r[i] == Trim(parts[i])
  {
    seq(|parts|, i requires 0 <= i < |parts| => Trim(parts[i]))
  }

  /** `.filter(Boolean)` on strings: drops the empty ones and keeps every
      other one, as often as it occurs and in order. */
  function NonBlank(parts: seq<string>): (r: seq<string>)
    ensures forall i | 0 <= i < |r| :: r[i] != ""
    ensures forall x | x in r :: x in parts
    ensures forall x {:trigger multiset(r)[x]} | x in parts :: multiset(r)[x] == if x == "" then 0 else multiset(parts)[x]
    ensures (forall x | x in parts :: x != "") ==> r == parts
    ensures IsSubsequence(r, parts)
  {
    var r := Keep(parts, (p: string) => p != "");
    assert forall i | 0 <= i < |r| :: r[i] in r;
    r
  }

  /** A `\r` before the line break is white space, so dropping it does not
      change the trimmed line. */
  lemma {:induction false} TrimDropCarriageReturn(p: string)
    ensures Trim(DropCarriageReturn(p)) == Trim(p)
    decreases |p|
  {
    var n := |p|;
    if n > 0 && p[n - 1] == '\r' && IsSpace(p[0]) && n > 1 {
      TrimDropCarriageReturn(p[1..]);
      assert p[1..][..n - 2] == p[..n - 1][1..];
    }
  }

  /** The lines of any text, before trimming, are its pieces between line
      feeds: the `\r` the line break drops makes no difference once the
      lines are trimmed. */
  lemma LinesSplit(text: string)
    ensures Lines(text) == NonBlank(TrimAll(Split(text, IsLineFeed)))
  {
    var pieces := Split(text, IsLineFeed);
    var raw := RawLines(text);
    forall i | 0 <= i < |pieces|
      ensures Trim(raw[i]) == Trim(pieces[i])
    {
      TrimDropCarriageReturn(pieces[i]);
    }
    assert TrimAll(raw) == TrimAll(pieces);
  }

  /** Lines joined by line feeds: the file's lines are those lines,
      trimmed, with the blank ones dropped, in order. */
  lemma WovenLines(ls: seq<string>, seps: seq<char>)
    requires |seps| == |ls| - 1
    requires forall i | 0 <= i < |ls| :: Free(ls[i], IsLineFeed)
    requires forall i | 0 <= i < |seps| :: IsLineFeed(seps[i])
    ensures Lines(Weave(ls, seps)) == NonBlank(TrimAll(ls))
  {
    WeaveSplit(ls, seps, IsLineFeed);
    LinesSplit(Weave(ls, seps));
  }

  /** A file of lines joined by line feeds imports what its trimmed,
      non-blank lines give, in order. */
  lemma WovenText(ls: seq<string>, seps: seq<char>)
    requires |seps| == |ls| - 1
    requires forall i | 0 <= i < |ls| :: Free(ls[i], IsLineFeed)
    requires forall i | 0 <= i < |seps| :: IsLineFeed(seps[i])
    ensures ParseText(Weave(ls, seps)) == ParseAll(NonBlank(TrimAll(ls)))
  {
    WovenLines(ls, seps);
  }

  /** Every string of a trimmed, filtered list is non-empty and trimmed. */
  lemma NonBlankTrimmed(parts: seq<string>)
    ensures forall i | 0 <= i < |NonBlank(TrimAll(parts))| ::
      NonBlank(TrimAll(parts))[i] != "" && IsTrimmed(NonBlank(TrimAll(parts))[i])
  {
    var t := TrimAll(parts);
    var r := NonBlank(t);
    forall i | 0 <= i < |r|
      ensures r[i] != "" && IsTrimmed(r[i])
    {
      assert r[i] in r;
      assert r[i] in t;
    }
  }

  /** The lines of the file, trimmed, blank ones dropped (script.js:54). */
  function Lines(text: string): (r: seq<string>)
    ensures forall i | 0 <= i < |r| :: r[i] != "" && IsTrimmed(r[i])
  {
    NonBlankTrimmed(RawLines(text));
    NonBlank(TrimAll(RawLines(text)))
  }

  /** The fields of one line, trimmed, empty ones dropped (script.js:57). No
      field is empty, has white space at either end or holds a delimiter. */
  function Tokens(line: string): (r: seq<string>)
    ensures forall i | 0 <= i < |r| :: r[i] != "" && IsTrimmed(r[i]) && Free(r[i], IsDelimiter)
  {
    var pieces := Split(line, IsDelimiter);
    var t := TrimAll(pieces);
    NonBlankTrimmed(pieces);
    assert forall i | 0 <= i < |t| :: Free(t[i], IsDelimiter);
    var r := NonBlank(t);
    assert forall i | 0 <= i < |r| :: r[i] in t;
    r
  }

  /** A name and a class a manual entry would accept as they are: non-empty,
      trimmed and free of field separators. */
  predicate Valid(name: string, klass: string) {
    && name != "" && IsTrimmed(name) && Free(name, IsDelimiter)
    && klass != "" && IsTrimmed(klass) && Free(klass, IsDelimiter)
  }

  function Last(parts: seq<string>): string {
    if |parts| == 0 then "" else parts[|parts| - 1]
  }

  function AllButLast(parts: seq<string>): seq<string> {
    if |parts| == 0 then [] else parts[..|parts| - 1]
  }

  /** The tokens but the last, joined by spaces, and the last token make a
      valid name and class. */
  lemma JoinedNameValid(parts: seq<string>)
    requires |parts| >= 2
    requires forall i | 0 <= i < |parts| :: parts[i] != "" && IsTrimmed(parts[i]) && Free(parts[i], IsDelimiter)
    ensures Valid(Join(AllButLast(parts), " "), Last(parts))
  {
    var names := parts[..|parts| - 1];
    JoinTrimmed(names, " ");
    JoinFree(names, " ", IsDelimiter);
  }

  /** One line (script.js:57-60): accepted when it has at least two fields;
      the last is the class and the rest, joined by single spaces, the
      name. Runs of spaces do not separate fields. */
  function ParseLine(line: string): (r: Option<Parsed>)
    ensures r.Some? <==> |Tokens(line)| >= 2
    ensures r.Some? ==> Valid(r.value.name, r.value.klass)
    ensures r.Some? ==> r.value == Parsed(Join(AllButLast(Tokens(line)), " "), Last(Tokens(line)))
  {
    var parts := Tokens(line);
    if |parts| >= 2 then
      JoinedNameValid(parts);
      Some(Parsed(Join(AllButLast(parts), " "), Last(parts)))
    else
      None
  }

  /** The accepted lines in file order; rejected lines contribute nothing. */
  function ParseAll(lines: seq<string>): (r: seq<Parsed>)
    ensures |r| <= |lines|
    ensures forall i | 0 <= i < |r| :: Valid(r[i].name, r[i].klass)
    decreases |lines|
  {
    if |lines| == 0 then []
    else
      var rest := ParseAll(lines[1..]);
      match ParseLine(lines[0])
      case Some(p) => [p] + rest
      case None => rest
  }

  /** The lines of a file contribute independently: the entries of two
      stretches of lines are the entries of the first followed by those of
      the second, so a rejected line contributes nothing and an accepted one
      exactly its entry. */
  lemma {:induction false} ParseAllAppend(a: seq<string>, b: seq<string>)
    ensures ParseAll(a + b) == ParseAll(a) + ParseAll(b)
    decreases |a|
  {
    if |a| == 0 {
      assert a + b == b;
    } else {
      assert (a + b)[1..] == a[1..] + b;
      ParseAllAppend(a[1..], b);
    }
  }

  /** One more line at the end of a file adds its entry when it is accepted
      and nothing otherwise. */
  lemma ParseAllSnoc(lines: seq<string>, line: string)
    ensures ParseAll(lines + [line]) ==
      ParseAll(lines) + (match ParseLine(line) case Some(p) => [p] case None => [])
  {
    ParseAllAppend(lines, [line]);
    assert ParseAll([line]) == (match ParseLine(line) case Some(p) => [p] case None => []) + ParseAll([]);
  }

  /** What importing a whole file contributes, in file order. */
  function ParseText(text: string): (r: seq<Parsed>)
    ensures forall i | 0 <= i < |r| :: Valid(r[i].name, r[i].klass)
  {
    ParseAll(Lines(text))
  }

  /** The tokens of fields joined by delimiters are the fields trimmed,
      with the blank ones dropped, in order. */
  lemma WovenTokens(fields: seq<string>, delims: seq<char>)
    requires |delims| == |fields| - 1
    requires forall i | 0 <= i < |fields| :: Free(fields[i], IsDelimiter)
    requires forall i | 0 <= i < |delims| :: IsDelimiter(delims[i])
    ensures Tokens(Weave(fields, delims)) == NonBlank(TrimAll(fields))
  {
    WeaveSplit(fields, delims, IsDelimiter);
  }

  /** A line of two tokens or more reads as its tokens but the last, joined,
      and its last token. */
  lemma ParseTokens(line: string, t: seq<string>)
    requires Tokens(line) == t && |t| >= 2
    ensures ParseLine(line) == Some(Parsed(Join(t[..|t| - 1], " "), t[|t| - 1]))
  {
    assert AllButLast(t) == t[..|t| - 1];
  }

  /** A text without line breaks that is already trimmed is one line. */
  lemma SingleLine(line: string)
    requires line != "" && IsTrimmed(line) && Free(line, IsLineFeed)
    ensures Lines(line) == [line]
  {
    WeaveSplit([line], [], IsLineFeed);
    assert Split(line, IsLineFeed) == [line];
    assert RawLines(line) == [line];
    assert Trim(line) == line;
    assert TrimAll([line]) == [line];
  }

  /** The two-column case: `name,class` reads as the trimmed name and
      class. For a trimmed name and class this is the round trip of the
      import format: the student written out is the student read back. */
  lemma ParseTwoFields(name: string, klass: string)
    requires Free(name, IsDelimiter) && Trim(name) != ""
    requires Free(klass, IsDelimiter) && Trim(klass) != ""
    ensures ParseLine(name + "," + klass) == Some(Parsed(Trim(name), Trim(klass)))
  {
    var t := [Trim(name), Trim(klass)];
    TwoTokens(name, klass);
    ParseTokens(name + "," + klass, t);
    assert t[..1] == [Trim(name)];
  }

  /** `name,class` has the trimmed name and class as its tokens. */
  lemma TwoTokens(name: string, klass: string)
    requires Free(name, IsDelimiter) && Trim(name) != ""
    requires Free(klass, IsDelimiter) && Trim(klass) != ""
    ensures Tokens(name + "," + klass) == [Trim(name), Trim(klass)]
  {
    WeavePair(name, ',', klass);
    FreePair(name, klass);
    WovenTokens([name, klass], [',']);
    TrimAllPair(name, klass);
    NonBlankPair(Trim(name), Trim(klass));
  }

  // Facts about two-element lists, one per lemma, so that each step of
  // TwoTokens stays a small proof obligation.

  lemma FreePair(a: string, b: string)
    requires Free(a, IsDelimiter) && Free(b, IsDelimiter)
    ensures forall i | 0 <= i < 2 :: Free([a, b][i], IsDelimiter)
  {
  }

  lemma TrimAllPair(a: string, b: string)
    ensures TrimAll([a, b]) == [Trim(a), Trim(b)]
  {
  }

  lemma WeavePair(a: string, c: char, b: string)
    ensures Weave([a, b], [c]) == a + [c] + b
  {
    assert [a, b][1..] == [b] && [c][1..] == [];
  }

  lemma NonBlankPair(a: string, b: string)
    requires a != "" && b != ""
    ensures NonBlank([a, b]) == [a, b]
  {
    assert forall x | x in [a, b] :: x == a || x == b;
  }

  /** A file holding the single line `name,class` imports that student. */
  lemma ParseTextNameClass(name: string, klass: string)
    requires Valid(name, klass) && Free(name, IsLineFeed) && Free(klass, IsLineFeed)
    ensures ParseText(name + "," + klass) == [Parsed(name, klass)]
  {
    var line := name + "," + klass;
    assert Free(line, IsLineFeed);
    assert IsTrimmed(line);
    SingleLine(line);
    ParseTwoFields(name, klass);
    assert Trim(name) == name && Trim(klass) == klass;
    assert ParseAll([line]) == [Parsed(name, klass)] + ParseAll([]);
  }

  /** The example of a well-formed line: `Ann Lee, 5A` is the student
      `Ann Lee` of class `5A`. */
  lemma ParseExample()
    ensures ParseLine("Ann Lee, 5A") == Some(Parsed("Ann Lee", "5A"))
  {
    ExampleFieldsFree();
    ExampleNameTrimmed();
    ExampleClassTrimmed();
    ExampleLine();
    ParseTwoFields("Ann Lee", " 5A");
  }

  // Facts about the literals of the examples, one per lemma, so that no
  // string literal is unfolded character by character inside a larger proof.

  lemma ExampleFieldsFree()
    ensures Free("Ann Lee", IsDelimiter) && Free(" 5A", IsDelimiter)
  {
  }

  lemma ExampleNameTrimmed()
    ensures Trim("Ann Lee") == "Ann Lee"
  {
    assert IsTrimmed("Ann Lee");
  }

  lemma ExampleClassTrimmed()
    ensures Trim(" 5A") == "5A"
  {
    var c, t := ' ', "5A";
    assert " 5A" == [c] + t;
    TrimPadded(c, t);
  }

  lemma TrimPadded(c: char, t: string)
    requires IsSpace(c) && IsTrimmed(t)
    ensures Trim([c] + t) == t
  {
    TrimLeadingSpace(c, t);
  }

  lemma ExampleLine()
    ensures "Ann Lee" + "," + " 5A" == "Ann Lee, 5A"
  {
  }

  lemma ExampleNoDelimiter()
    ensures Free("Ann Lee 5A", IsDelimiter)
  {
  }

  /** A line without a delimiter is a single field, so it is rejected
      whatever spaces it holds. */
  lemma {:induction false} SingleFieldRejected(line: string)
    requires Free(line, IsDelimiter)
    ensures ParseLine(line) == None
  {
    WeaveSplit([line], [], IsDelimiter);
    assert |Split(line, IsDelimiter)| == 1;
    assert |TrimAll(Split(line, IsDelimiter))| == 1;
  }

  /** Fields separated only by spaces stay one field: `Ann Lee 5A` imports
      nothing. */
  lemma SpacesDoNotSeparate()
    ensures ParseLine("Ann Lee 5A") == None
  {
    ExampleNoDelimiter();
    SingleFieldRejected("Ann Lee 5A");
  }
}
