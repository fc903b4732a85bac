/** The JavaScript string operations the script relies on: `trim`, `split` on
    a character class, `join`, lower-casing, `includes`, the relational
    operators on strings and `String(n)` for a count. */
module Text {

  // ---------------------------------------------------------------- trim

  /** The code points `String.prototype.trim` removes: WhiteSpace and
      LineTerminator of ECMA-262, the ECMAScript Language
      Specification, sections 12.2 and 12.3. */
  predicate IsSpace(c: char) {
    || c == '\t' || c == '\n' || c == '\U{000B}' || c == '\U{000C}' || c == '\r' || c == ' '
    || c == '\U{00A0}' || c == '\U{1680}' || ('\U{2000}' <= c <= '\U{200A}')
    || c == '\U{2028}' || c == '\U{2029}' || c == '\U{202F}' || c == '\U{205F}'
    || c == '\U{3000}' || c == '\U{FEFF}'
  }

  /** Neither end of `s` is white space. */
  predicate IsTrimmed(s: string) {
    |s| == 0 || (!IsSpace(s[0]) && !IsSpace(s[|s| - 1]))
  }

  /** Consists of white space only (so it is empty once trimmed). */
  predicate Blank(s: string) {
    forall k | 0 <= k < |s| :: IsSpace(s[k])
  }

  /** `r` is `s` with white space taken off its two ends only: a stretch of
      `s` with nothing but white space before and after it. */
  predicate Stripped(s: string, r: string) {
    exists i, j | 0 <= i <= j <= |s| :: r == s[i..j] && Blank(s[..i]) && Blank(s[j..])
  }

  /** A stretch with white space only before and after it is stripped. */
  lemma StrippedAt(s: string, r: string, i: nat, j: nat)
    requires i <= j <= |s| && r == s[i..j] && Blank(s[..i]) && Blank(s[j..])
    ensures Stripped(s, r)
  {
  }

  /** White space after a blank string leaves it blank. */
  lemma BlankSnoc(t: string, c: char)
    requires IsSpace(c) && Blank(t)
    ensures Blank(t + [c])
  {
    forall k | 0 <= k < |t| + 1
      ensures IsSpace((t + [c])[k])
    {
      if k < |t| {
        assert (t + [c])[k] == t[k];
      }
    }
  }

  /** Stripping what follows a leading space strips the whole. */
  lemma StrippedFront(s: string, r: string)
    requires |s| > 0 && IsSpace(s[0]) && Stripped(s[1..], r)
    ensures Stripped(s, r)
  {
    var t := s[1..];
    var i, j :| 0 <= i <= j <= |t| && r == t[i..j] && Blank(t[..i]) && Blank(t[j..]);
    StrippedFrontAt(s, r, i, j);
  }

  lemma StrippedFrontAt(s: string, r: string, i: nat, j: nat)
    requires |s| > 0 && IsSpace(s[0]) && i <= j <= |s| - 1
    requires r == s[1..][i..j] && Blank(s[1..][..i]) && Blank(s[1..][j..])
    ensures Stripped(s, r)
  {
    assert Blank(s[..i + 1]) by {
      forall k | 0 <= k < i + 1
        ensures IsSpace(s[k])
      {
        if k > 0 {
          assert s[k] == s[1..][..i][k - 1];
        }
      }
    }
    assert s[i + 1..j + 1] == s[1..][i..j];
    assert s[j + 1..] == s[1..][j..];
    StrippedAt(s, r, i + 1, j + 1);
  }

  /** Stripping what precedes a trailing space strips the whole. */
  lemma StrippedBack(s: string, r: string)
    requires |s| > 0 && IsSpace(s[|s| - 1]) && Stripped(s[..|s| - 1], r)
    ensures Stripped(s, r)
  {
    var t := s[..|s| - 1];
    var i, j :| 0 <= i <= j <= |t| && r == t[i..j] && Blank(t[..i]) && Blank(t[j..]);
    StrippedBackAt(s, r, i, j);
  }

  lemma StrippedBackAt(s: string, r: string, i: nat, j: nat)
    requires |s| > 0 && IsSpace(s[|s| - 1]) && i <= j <= |s| - 1
    requires r == s[..|s| - 1][i..j] && Blank(s[..|s| - 1][..i]) && Blank(s[..|s| - 1][j..])
    ensures Stripped(s, r)
  {
    var t := s[..|s| - 1];
    BlankSnoc(t[j..], s[|s| - 1]);
    assert s[j..] == t[j..] + [s[|s| - 1]];
    assert s[i..j] == t[i..j];
    assert s[..i] == t[..i];
    StrippedAt(s, r, i, j);
  }

  /** `s.trim()`: drops white space from the front, then from the back; what
      remains is the stretch of `s` between the two runs of white space. */
  function Trim(s: string): (r: string)
    ensures IsTrimmed(r)
    ensures IsTrimmed(s) ==> r == s
    ensures r == "" <==> Blank(s)
    ensures forall c | c in r :: c in s
    ensures Stripped(s, r)
    decreases |s|
  {
    if |s| > 0 && IsSpace(s[0]) then
      var r := Trim(s[1..]);
      assert forall k | 1 <= k < |s| :: s[k] == s[1..][k - 1];
      assert forall c | c in s[1..] :: c in s;
      StrippedFront(s, r);
      r
    else if |s| > 0 && IsSpace(s[|s| - 1]) then
      var r := Trim(s[..|s| - 1]);
      assert forall k | 0 <= k < |s| - 1 :: s[k] == s[..|s| - 1][k];
      assert forall c | c in s[..|s| - 1] :: c in s;
      StrippedBack(s, r);
      r
    else
      assert s == s[0..|s|] && Blank(s[..0]) && Blank(s[|s|..]);
      StrippedAt(s, s, 0, |s|);
      s
  }

  /** A leading white-space character makes no difference to the trim. */
  lemma TrimLeadingSpace(c: char, t: string)
    requires IsSpace(c)
    ensures Trim([c] + t) == Trim(t)
  {
    assert ([c] + t)[1..] == t;
  }

  // --------------------------------------------------------------- split

  /** No character of `p` satisfies `isSep`. */
  predicate Free(p: string, isSep: char -> bool) {
    forall c | c in p :: !isSep(c)
  }

  /** The characters of `s` that satisfy `isSep`, in order. */
  function Separators(s: string, isSep: char -> bool): seq<char>
    decreases |s|
  {
    if |s| == 0 then [] else (if isSep(s[0]) then [s[0]] else []) + Separators(s[1..], isSep)
  }

  /** `s.split(/[...]/)` for a regular expression that matches exactly one
      character of a class: one piece more than there are separators, and no
      piece holds a separator. The empty string splits into `[""]`. */
  function Split(s: string, isSep: char -> bool): (r: seq<string>)
    ensures |r| == |Separators(s, isSep)| + 1
    ensures forall i | 0 <= i < |r| :: Free(r[i], isSep)
    decreases |s|
  {
    if |s| == 0 then [""]
    else
      var rest := Split(s[1..], isSep);
      if isSep(s[0]) then [""] + rest
      else [[s[0]] + rest[0]] + rest[1..]
  }

  /** Puts the pieces back together with the separators between them. */
  function Weave(pieces: seq<string>, seps: seq<char>): string
    requires |pieces| == |seps| + 1
    decreases |seps|
  {
    if |seps| == 0 then pieces[0] else pieces[0] + [seps[0]] + Weave(pieces[1..], seps[1..])
  }

  /** Splitting loses nothing: the pieces and the separators rebuild `s`. */
  lemma {:induction false} SplitWeave(s: string, isSep: char -> bool)
    ensures Weave(Split(s, isSep), Separators(s, isSep)) == s
    decreases |s|
  {
    if |s| > 0 {
      SplitWeave(s[1..], isSep);
      var rest := Split(s[1..], isSep);
      var seps := Separators(s[1..], isSep);
      assert s == [s[0]] + s[1..];
      if isSep(s[0]) {
        assert Separators(s, isSep) == [s[0]] + seps;
        assert ([""] + rest)[1..] == rest;
        assert ([s[0]] + seps)[1..] == seps;
      } else {
        assert Separators(s, isSep) == seps;
        var r := [[s[0]] + rest[0]] + rest[1..];
        assert r[1..] == rest[1..];
        if |seps| > 0 {
          assert Weave(r, seps) == ([s[0]] + rest[0]) + [seps[0]] + Weave(rest[1..], seps[1..]);
          assert Weave(rest, seps) == rest[0] + [seps[0]] + Weave(rest[1..], seps[1..]);
        }
      }
    }
  }

  /** A separator-free prefix just extends the first piece. */
  lemma {:induction false} SplitFreePrefix(a: string, t: string, isSep: char -> bool)
    requires Free(a, isSep)
    ensures Split(a + t, isSep) == [a + Split(t, isSep)[0]] + Split(t, isSep)[1..]
    decreases |a|
  {
    var parts := Split(t, isSep);
    if |a| == 0 {
      assert a + t == t;
      assert "" + parts[0] == parts[0];
      assert parts == [parts[0]] + parts[1..];
    } else {
      SplitFreePrefix(a[1..], t, isSep);
      assert (a + t)[1..] == a[1..] + t;
      assert a[0] in a;
      assert (a + t)[0] == a[0];
      assert [a[0]] + (a[1..] + Split(t, isSep)[0]) == a + Split(t, isSep)[0];
    }
  }

  /** A separator in front starts an empty first piece. */
  lemma SplitAtSeparator(c: char, t: string, isSep: char -> bool)
    requires isSep(c)
    ensures Split([c] + t, isSep) == [""] + Split(t, isSep)
  {
    assert ([c] + t)[1..] == t;
  }

  /** Splitting undoes weaving: pieces without separators, joined by
      separator characters, split back into the same pieces. */
  lemma {:induction false} WeaveSplit(pieces: seq<string>, seps: seq<char>, isSep: char -> bool)
    requires |pieces| == |seps| + 1
    requires forall i | 0 <= i < |pieces| :: Free(pieces[i], isSep)
    requires forall i | 0 <= i < |seps| :: isSep(seps[i])
    ensures Split(Weave(pieces, seps), isSep) == pieces
    decreases |seps|
  {
    if |seps| == 0 {
      SplitFreePrefix(pieces[0], "", isSep);
      assert pieces[0] + "" == pieces[0];
      assert Split("", isSep) == [""];
    } else {
      var tail := Weave(pieces[1..], seps[1..]);
      WeaveSplit(pieces[1..], seps[1..], isSep);
      var after := [seps[0]] + tail;
      assert Weave(pieces, seps) == pieces[0] + after;
      SplitAtSeparator(seps[0], tail, isSep);
      SplitFreePrefix(pieces[0], after, isSep);
      assert pieces[0] + "" == pieces[0];
      assert pieces == [pieces[0]] + pieces[1..];
    }
  }

  // ---------------------------------------------------------------- join

  /** `parts.join(sep)`: the parts in order with `sep` between neighbours;
      it starts with the first part and ends with the last, and an empty
      array joins to the empty string. */
  function Join(parts: seq<string>, sep: string): (r: string)
    ensures |parts| == 0 ==> r == ""
    ensures |parts| > 0 ==> parts[0] <= r
    decreases |parts|
  {
    if |parts| == 0 then ""
    else if |parts| == 1 then
      assert parts[0][|parts[0]| - |parts[0]|..] == parts[0];
      parts[0]
    else
      var rest := Join(parts[1..], sep);
      var r := parts[0] + sep + rest;
      assert r[|r| - |rest|..] == rest;
      r
  }

  /** A single separator character `c` repeated `n` times. */
  function Repeat(c: char, n: nat): (r: seq<char>)
    ensures |r| == n && forall k | 0 <= k < n :: r[k] == c
    decreases n
  {
    if n == 0 then [] else [c] + Repeat(c, n - 1)
  }

  /** A join with a one-character separator is the parts woven with that
      character. */
  lemma {:induction false} JoinIsWeave(parts: seq<string>, c: char)
    requires |parts| >= 1
    ensures Join(parts, [c]) == Weave(parts, Repeat(c, |parts| - 1))
    decreases |parts|
  {
    if |parts| > 1 {
      JoinIsWeave(parts[1..], c);
      assert Repeat(c, |parts| - 1)[1..] == Repeat(c, |parts| - 2);
    }
  }

  /** Splitting undoes joining: parts without separators, joined by a
      separator character, split back into the same parts. */
  lemma SplitJoin(parts: seq<string>, c: char, isSep: char -> bool)
    requires |parts| >= 1 && isSep(c)
    requires forall i | 0 <= i < |parts| :: Free(parts[i], isSep)
    ensures Split(Join(parts, [c]), isSep) == parts
  {
    JoinIsWeave(parts, c);
    WeaveSplit(parts, Repeat(c, |parts| - 1), isSep);
  }

  /** Every character of a join comes from a part or from the separator. */
  lemma {:induction false} JoinFree(parts: seq<string>, sep: string, isSep: char -> bool)
    requires forall i | 0 <= i < |parts| :: Free(parts[i], isSep)
    requires Free(sep, isSep)
    ensures Free(Join(parts, sep), isSep)
    decreases |parts|
  {
    if |parts| > 1 {
      JoinFree(parts[1..], sep, isSep);
    }
  }

  /** Joining non-empty trimmed parts keeps both ends of the result trimmed. */
  lemma {:induction false} JoinTrimmed(parts: seq<string>, sep: string)
    requires |parts| >= 1
    requires forall i | 0 <= i < |parts| :: parts[i] != "" && IsTrimmed(parts[i])
    ensures Join(parts, sep) != "" && IsTrimmed(Join(parts, sep))
    ensures Join(parts, sep)[0] == parts[0][0]
    ensures var j := Join(parts, sep); j[|j| - 1] == parts[|parts| - 1][|parts[|parts| - 1]| - 1]
    decreases |parts|
  {
    if |parts| > 1 {
      JoinTrimmed(parts[1..], sep);
      var rest := Join(parts[1..], sep);
      assert Join(parts, sep) == parts[0] + sep + rest;
    }
  }

  // --------------------------------------------------------- lower case

  /** `toLowerCase` restricted to ASCII letters. */
  function LowerChar(c: char): char {
    if 'A' <= c <= 'Z' then (c as int + 32) as char else c
  }

  /** `s.toLowerCase()`: the same length, no ASCII capital left, and each
      character either kept or, for a capital, replaced by its small letter. */
  function Lower(s: string): (r: string)
    ensures |r| == |s|
    ensures forall k | 0 <= k < |r| :: !('A' <= r[k] <= 'Z')
    ensures forall k | 0 <= k < |r| :: r[k] == s[k] || ('A' <= s[k] <= 'Z' && r[k] as int == s[k] as int + 32)
  {
    seq(|s|, k requires 0 <= k < |s| => LowerChar(s[k]))
  }

  /** Lower-casing twice is lower-casing once. */
  lemma LowerIdempotent(s: string)
    ensures Lower(Lower(s)) == Lower(s)
  {
    var l := Lower(s);
    assert forall k | 0 <= k < |l| :: LowerChar(l[k]) == l[k];
  }

  // ------------------------------------------------------------- includes

  predicate StartsWith(s: string, prefix: string) {
    |prefix| <= |s| && s[..|prefix|] == prefix
  }

  /** `s.includes(q)`, scanning the start positions from left to right. */
  predicate Includes(s: string, q: string): (r: bool)
    ensures r ==> |q| <= |s|
    ensures q == "" ==> r
    decreases |s|
  {
    StartsWith(s, q) || (|s| > 0 && Includes(s[1..], q))
  }

  /** `q` occurs in `s` at position `i`. */
  predicate OccursAt(s: string, q: string, i: int) {
    0 <= i && i + |q| <= |s| && s[i..i + |q|] == q
  }

  /** The scan finds `q` exactly when `q` occurs somewhere in `s`. */
  lemma {:induction false} IncludesIff(s: string, q: string)
    ensures Includes(s, q) <==> exists i :: OccursAt(s, q, i)
    decreases |s|
  {
    if StartsWith(s, q) {
      assert OccursAt(s, q, 0);
    }
    if |s| > 0 {
      IncludesIff(s[1..], q);
      if Includes(s[1..], q) {
        var i :| OccursAt(s[1..], q, i);
        assert s[1..][i..i + |q|] == s[i + 1..i + 1 + |q|];
        assert OccursAt(s, q, i + 1);
      }
      if exists i :: OccursAt(s, q, i) {
        var i :| OccursAt(s, q, i);
        if i > 0 {
          assert s[1..][i - 1..i - 1 + |q|] == s[i..i + |q|];
          assert OccursAt(s[1..], q, i - 1);
        } else {
          assert StartsWith(s, q);
        }
      }
    } else if exists i :: OccursAt(s, q, i) {
      var i :| OccursAt(s, q, i);
      assert |q| == 0;
      assert StartsWith(s, q);
    }
  }

  // ----------------------------------------------------------- ordering

  /** `a <= b` on strings: compared character by character, a proper prefix
      coming first. */
  predicate LexLe(a: string, b: string): (r: bool)
    ensures StartsWith(b, a) ==> r
    ensures r && |a| > 0 ==> |b| > 0 && a[0] <= b[0]
    decreases |a|
  {
    |a| == 0 || (|b| > 0 && (a[0] < b[0] || (a[0] == b[0] && LexLe(a[1..], b[1..]))))
  }

  /** `a < b` on strings. */
  predicate LexLt(a: string, b: string) {
    LexLe(a, b) && a != b
  }

  lemma {:induction false} LexLeReflexive(s: string)
    ensures LexLe(s, s)
    decreases |s|
  {
    if |s| > 0 {
      LexLeReflexive(s[1..]);
    }
  }

  lemma {:induction false} LexLeTotal(a: string, b: string)
    ensures LexLe(a, b) || LexLe(b, a)
    decreases |a|
  {
    if |a| > 0 && |b| > 0 && a[0] == b[0] {
      LexLeTotal(a[1..], b[1..]);
    }
  }

  lemma {:induction false} LexLeAntisymmetric(a: string, b: string)
    requires LexLe(a, b) && LexLe(b, a)
    ensures a == b
    decreases |a|
  {
    if |a| > 0 && |b| > 0 {
      LexLeAntisymmetric(a[1..], b[1..]);
      assert a == [a[0]] + a[1..];
      assert b == [b[0]] + b[1..];
    }
  }

  lemma {:induction false} LexLeTransitive(a: string, b: string, c: string)
    requires LexLe(a, b) && LexLe(b, c)
    ensures LexLe(a, c)
    decreases |a|
  {
    if |a| > 0 && |b| > 0 && |c| > 0 && a[0] == b[0] && b[0] == c[0] {
      LexLeTransitive(a[1..], b[1..], c[1..]);
    }
  }

  lemma LexLtTransitive(a: string, b: string, c: string)
    requires LexLt(a, b) && LexLt(b, c)
    ensures LexLt(a, c)
  {
    LexLeTransitive(a, b, c);
    if a == c {
      LexLeAntisymmetric(a, b);
    }
  }

  /** Strings that share a prefix compare as what follows it: two dates of
      the same month compare by their days. */
  lemma {:induction false} LexLeCommonPrefix(p: string, a: string, b: string)
    ensures LexLe(p + a, p + b) == LexLe(a, b)
    decreases |p|
  {
    if |p| > 0 {
      LexLeCommonPrefix(p[1..], a, b);
      assert (p + a)[1..] == p[1..] + a && (p + b)[1..] == p[1..] + b;
    } else {
      assert p + a == a && p + b == b;
    }
  }

  // ------------------------------------------------------------ numbers

  predicate IsDigit(c: char) {
    '0' <= c <= '9'
  }

  function DigitChar(d: nat): (c: char)
    requires d < 10
  {
    ('0' as int + d) as char
  }

  /** `String(n)` for a count: its decimal digits, most significant first. */
  function DecimalString(n: nat): (r: string)
    ensures |r| >= 1
    ensures forall c | c in r :: IsDigit(c)
    ensures |r| > 1 ==> r[0] != '0'
    decreases n
  {
    if n < 10 then [DigitChar(n)] else DecimalString(n / 10) + [DigitChar(n % 10)]
  }

  /** The number a string of decimal digits denotes. */
  function DecimalValue(s: string): nat
    requires forall c | c in s :: IsDigit(c)
    decreases |s|
  {
    if |s| == 0 then 0
    else
      assert s[|s| - 1] in s;
      assert forall c | c in s[..|s| - 1] :: c in s;
      assert IsDigit(s[|s| - 1]);
      var d := s[|s| - 1] as int - '0' as int;
      assert 0 <= d;
      10 * DecimalValue(s[..|s| - 1]) + d
  }

  /** Reading the digits back gives the count that was written. */
  lemma {:induction false} DecimalRoundTrip(n: nat)
    ensures DecimalValue(DecimalString(n)) == n
    decreases n
  {
    if n >= 10 {
      DecimalRoundTrip(n / 10);
      var r := DecimalString(n);
      assert r[..|r| - 1] == DecimalString(n / 10);
    }
  }
}
