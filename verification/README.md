# Lateness book: a Dafny model of its data logic

The lateness book is a single browser script, `script.js`, used by a school to
keep a roster of students and a list of late arrivals. This project models the
data logic inside it, apart from the DOM, network and chart code. It covers:

- the two lists: students `{id, name, klass}` and lateness records
  `{id, name, klass, date, time, reason}`, newest record first;
- the user actions that change the lists: import a roster file, add a student
  by hand, clear the roster, delete a student or a record by its row, and
  record a late arrival for the selected student;
- the filter panel over the lateness list;
- the summaries: students per class, lateness records per class and per
  month, and the sorted class labels of the selects;
- the two CSV exports.

Every action is a pure function from one state to the next. A refused action
(which the script answers with an alert) returns the state unchanged together
with the reason. The JavaScript string and array primitives the script relies
on are defined in `text.dfy` and `seqs.dfy`:

- `trim`, `split` on a character class, `join`;
- ASCII lower-casing and `includes`;
- the relational operators on strings and `String(n)`;
- `splice(i, 1)` and `filter`.

The modules follow the script's structure:

| file | module | what it holds |
|---|---|---|
| `wrappers.dfy` | `Wrappers` | `Option` |
| `records.dfy` | `Records` | students and lateness records |
| `text.dfy` | `Text` | the string primitives |
| `seqs.dfy` | `Seqs` | `splice(i, 1)`, `filter`, sub-lists |
| `roster_import.dfy` | `RosterImport` | reading a roster file |
| `store.dfy` | `Store` | the state and the user actions |
| `lateness_filter.dfy` | `LatenessFilter` | the filter panel |
| `counting.dfy` | `Counting` | the tables of counts per key |
| `sorting.dfy` | `Sorting` | `sort()` on distinct strings |
| `summaries.dfy` | `Summaries` | per-class and per-month counts, class labels |
| `csv.dfy` | `Csv` | CSV writing, and a reader used to state what a file holds |

Three behaviours of the code are easy to get wrong, and the model follows the
code in each:

- **Import separators.** Only `,` `;` `|` and tab separate the fields of an
  imported line (script.js:57). Spaces do not, so `Ann Lee 5A` imports
  nothing. This is shown by `RosterImport.SpacesDoNotSeparate`.
- **Deletion.** Students and records are deleted by row index with
  `splice(i, 1)` (script.js:102, 141). An index past the end removes nothing.
- **Monthly counts.** Every record is counted under `date.slice(0, 7)`
  (script.js:165, 200), whatever the first seven characters of its date are.

## Model

| member | source | states |
|---|---|---|
| Text.Trim | script.js:76 | the result is the stretch of the input between a run of leading and a run of trailing white space, and has no white space at either end; an already trimmed string is unchanged; the result is empty exactly when the input is all white space |
| Text.TrimLeadingSpace | script.js:57 | white space in front of a field does not change its trimmed value |
| Text.Split | script.js:57 | splitting on a character class gives one piece more than there are separators, and no piece holds a separator |
| Text.SplitWeave | script.js:57 | splitting loses nothing: the pieces with the separators between them rebuild the input |
| Text.WeaveSplit | script.js:57 | separator-free pieces joined by separators split back into the same pieces |
| Text.Join | script.js:60 | `join` of no parts is empty; otherwise it starts with the first part |
| Text.JoinIsWeave | script.js:60 | joining with a one-character separator puts that character between each pair of neighbouring parts |
| Text.SplitJoin | script.js:60 | parts without separators, joined by a separator character, split back into the same parts |
| Text.JoinTrimmed | script.js:60 | joining non-empty trimmed tokens gives a non-empty trimmed name that starts with the first token's first character and ends with the last token's last character |
| Text.JoinFree | script.js:60 | joining delimiter-free tokens with a space gives a delimiter-free name |
| Text.Lower | script.js:145 | `toLowerCase` keeps the length, leaves no capital letter, and changes only capitals, each to its small letter |
| Text.LowerIdempotent | script.js:147 | lower-casing twice is the same as lower-casing once, so the search does not depend on the case of the query |
| Text.Includes | script.js:147 | a text includes only queries no longer than itself, and always includes the empty query |
| Text.IncludesIff | script.js:147 | the left-to-right scan of `includes` succeeds exactly when the query occurs at some position |
| Text.LexLe | script.js:149-150 | a string is `<=` every string it is a prefix of, and a non-empty string is `<=` another only if its first character is not above the other's |
| Text.LexLeTotal | script.js:149-150 | any two date strings are ordered one way or the other by `<=` |
| Text.LexLeAntisymmetric | script.js:149-150 | two strings each `<=` the other are equal |
| Text.LexLeTransitive | script.js:149-150 | string `<=` is transitive |
| Text.LexLtTransitive | script.js:106 | string `<` is transitive |
| Text.LexLeCommonPrefix | script.js:149-150 | strings with a common prefix compare as what follows it, so two dates of one month compare by their days |
| Text.DecimalString | script.js:167 | `String(n)` of a count is a non-empty string of digits without a leading zero |
| Text.DecimalRoundTrip | script.js:167 | reading the written digits back gives the count |
| Seqs.RemoveAt | script.js:102 | `splice(i, 1)` drops one element: those before `i` are unchanged, those after move down one; an index past the end changes nothing |
| Seqs.RemoveAtReinsert | script.js:141 | putting the removed element back at `i` restores the list, so exactly one occurrence of it goes |
| Seqs.Keep | script.js:147-150 | `filter` gives a sub-list in the original order; each element that passes occurs in it as often as in the list and no other element occurs; if all pass it is the whole list |
| Seqs.KeepAppend | script.js:147-150 | filtering a concatenation filters each part |
| Seqs.KeepSameVerdicts | script.js:147-150 | two tests that agree on every element filter alike |
| Seqs.KeepTwice | script.js:147-150 | two filters in a row are one filter by both tests |
| RosterImport.RawLines | script.js:54 | splitting on `\r?\n` gives one line more than there are line feeds, and no line holds a line feed |
| RosterImport.TrimAll | script.js:54 | `map(trim)` trims each part in its place |
| RosterImport.NonBlank | script.js:54 | `filter(Boolean)` drops the empty strings and keeps every other string as often as it occurs, as a sub-list in the original order; if none is empty it keeps all |
| RosterImport.TrimDropCarriageReturn | script.js:54 | the `\r` the line break drops would have been trimmed anyway |
| RosterImport.LinesSplit | script.js:54 | the lines of any text are its pieces between line feeds, trimmed, with the blank ones dropped, in order |
| RosterImport.WovenLines | script.js:54 | lines joined by line feeds, blank ones and `\r` endings included, come back trimmed, non-blank and in order |
| RosterImport.WovenText | script.js:54-62 | a file of lines joined by line feeds imports what its trimmed non-blank lines give, in order |
| RosterImport.NonBlankTrimmed | script.js:54 | after `map(trim).filter(Boolean)` every line is non-empty and trimmed |
| RosterImport.Lines | script.js:54 | every line kept from a file is non-empty and trimmed (which lines they are is stated by `LinesSplit`) |
| RosterImport.Tokens | script.js:57 | every token of a line is non-empty, trimmed and free of comma, semicolon, pipe and tab (which tokens they are is stated by `WovenTokens`) |
| RosterImport.JoinedNameValid | script.js:59-60 | the tokens but the last, joined by spaces, and the last token make a name and a class that are non-empty, trimmed and free of separators |
| RosterImport.ParseLine | script.js:57-60 | a line is accepted exactly when it has at least two tokens; then the class is the last token and the name is the others joined by single spaces, and both are non-empty, trimmed and free of separators |
| RosterImport.ParseAll | script.js:55-63 | there are no more entries than lines, and every entry has a valid name and class |
| RosterImport.ParseAllAppend | script.js:55-63 | the entries of two stretches of lines are the entries of the first followed by those of the second |
| RosterImport.ParseAllSnoc | script.js:55-63 | one more line adds its entry if it is accepted and nothing if it is rejected |
| RosterImport.ParseText | script.js:54-62 | every entry read from a file has a valid name and class (which entries they are is stated by `WovenText`) |
| RosterImport.WovenTokens | script.js:57 | fields with delimiters between them have as tokens the fields trimmed, with the blank ones dropped, in order |
| RosterImport.ParseTokens | script.js:58-60 | a line of two tokens or more gives the last token as the class and the others joined by single spaces as the name |
| RosterImport.TwoTokens | script.js:57 | `name,class` has the trimmed name and the trimmed class as its two tokens |
| RosterImport.SingleLine | script.js:54 | a trimmed text without a line feed is one line |
| RosterImport.ParseTwoFields | script.js:57-60 | `name,class` reads as the trimmed name and the trimmed class |
| RosterImport.ParseTextNameClass | script.js:54-62 | a file holding the single line `name,class` of a valid name and class gives exactly that entry |
| RosterImport.ParseExample | script.js:57-60 | `Ann Lee, 5A` is the student `Ann Lee` of class `5A` |
| RosterImport.SingleFieldRejected | script.js:58 | a line without a delimiter is rejected, whatever spaces it holds |
| RosterImport.SpacesDoNotSeparate | script.js:57 | `Ann Lee 5A` is rejected: spaces do not separate fields |
| Store.AddStudent | script.js:76-78 | refused, with nothing changed, exactly when the name or the class is blank; otherwise one student with the trimmed name and class and a new id is appended and nothing else changes |
| Store.AppendAll | script.js:61 | the old students stay in front; the `j`-th entry becomes the student after them at offset `j` with the `j`-th fresh id |
| Store.AppendAllShape | script.js:55-63 | appending valid entries keeps the old students in front and adds one valid student per entry, with its name and class |
| Store.ImportStudents | script.js:54-62 | the old students keep their order; after them comes one student per accepted line in file order, with that line's name and class, each one valid; the lateness list is unchanged |
| Store.ClearStudents | script.js:85 | the roster is empty and the lateness list is kept |
| Store.DeleteStudent | script.js:102 | the roster loses the student at row `i` and the lateness list is unchanged |
| Store.FindStudent | script.js:125 | `find` gives the first position holding the id, or nothing when no student has it |
| Store.RecordLateness | script.js:124-129 | no selection, or no student with the selected id, is refused with nothing changed; a selected id some student has is always recorded: the new list is the new record followed by the old one, and the record carries the name and class of the first student with that id |
| Store.DeleteLateness | script.js:141 | the lateness list loses the record at row `i` and the roster is unchanged |
| Store.AddThenDelete | script.js:78 | deleting the row that was just added gives the roster back |
| Store.RecordThenDelete | script.js:129 | deleting the newest record undoes recording it |
| Store.ImportLineIsAdd | script.js:54-62 | importing a one-line file `name,class` adds the same student as typing that name and class into the form |
| Store.RecordBumpsClassCount | script.js:129 | recording a late arrival raises the count of the student's class by one and leaves every other class's count alone |
| LatenessFilter.Apply | script.js:145-150 | every record of the result meets every criterion that is set, and every record of the list that meets them is in the result; with no criteria the result is the whole list |
| LatenessFilter.Meets | script.js:147-150 | the reference test of a record against the criteria; with no criterion set every record passes |
| LatenessFilter.QueryCaseInsensitive | script.js:147 | the text search ignores the case of the query: a record meets the criteria exactly when it meets them with the query lower-cased |
| LatenessFilter.StageIsKeep | script.js:147-150 | a step that is switched off keeps everything, and one that is on filters by its test |
| LatenessFilter.ApplyIsFourFilters | script.js:147-150 | the four steps are four filters in a row |
| LatenessFilter.GatesAreMeets | script.js:147-150 | a record passes all four steps exactly when it meets every criterion that is set |
| LatenessFilter.ApplyIsConjunction | script.js:145-150 | the result is the order-preserving sub-list of exactly the records that meet every criterion that is set |
| LatenessFilter.FromBoundExample | script.js:149 | the lower date bound is inclusive: with `from = 2024-02-01` a record of 2024-01-31 is dropped and one of 2024-02-01 is kept |
| Counting.Keys | script.js:93 | the keys of a table are its entries' keys in order |
| Counting.Lookup | script.js:93 | a key with a positive count is a key of the table |
| Counting.Bump | script.js:93 | the count of the key goes up by one and no other count changes; the total rises by one; in the model's table a new key goes after the others and an old one keeps its place |
| Counting.Tally | script.js:93 | no key repeats; the keys are exactly the values counted; each count is the number of occurrences of its key; the counts add up to the number of values |
| Counting.LookupAt | script.js:93 | in a table without repeated keys, looking up an entry's key gives its count |
| Counting.TallyEntries | script.js:93 | every entry of a tally counts how often its key occurs, and that is at least once |
| Sorting.PrependAscending | script.js:106 | a string below every string of an ascending list can go in front of it |
| Sorting.AscendingTail | script.js:106 | dropping the first string keeps a list strictly ascending |
| Sorting.InsertSorted | script.js:106 | inserting into a strictly ascending list keeps it strictly ascending and adds exactly the new string |
| Sorting.SortDistinct | script.js:106 | `Array.from(new Set(xs)).sort()` is strictly ascending and holds exactly the strings of `xs` |
| Sorting.HeadIsLeast | script.js:106 | the first string of an ascending list is below all the others |
| Sorting.AscendingUnique | script.js:106 | two strictly ascending lists with the same strings are equal |
| Summaries.RosterClasses | script.js:93 | the class column of the roster: entry `i` is student `i`'s class |
| Summaries.RecordClasses | script.js:196 | the class column of the lateness list: entry `i` is record `i`'s class |
| Summaries.ClassCountsCons | script.js:129 | one more record raises the count of its class by one and leaves every other class's count alone |
| Summaries.RosterClassCounts | script.js:93 | one entry per class on the roster, no class twice, each counting that class's students; the counts add up to the roster's length |
| Summaries.ClassCounts | script.js:196 | as at script.js:175 too: one entry per class with a record, no class twice, each counting that class's records; the counts add up to the number of records |
| Summaries.ClassLabels | script.js:106 | the labels are strictly ascending and are exactly the roster's classes |
| Summaries.ClassLabelsUnique | script.js:106 | any strictly ascending list of exactly the roster's classes is the list of labels |
| Summaries.ClassLabelsAreSummaryKeys | script.js:93-106 | the labels are the keys of the class summary, sorted |
| Summaries.MonthKey | script.js:200 | `date.slice(0, 7)` is the prefix of the date of length seven, or the whole date if it is shorter |
| Summaries.RecordMonths | script.js:200 | the month column: entry `i` is record `i`'s month key |
| Summaries.CountsOf | script.js:201 | each listed key is paired with its count in the table, in the listed order |
| Summaries.MonthCounts | script.js:200-201 | as at script.js:165-166 too: the months are strictly ascending and are exactly the month keys of the records; each count is the number of records of that month and is positive; the counts add up to the number of records |
| Summaries.CountSumEmpty | script.js:200 | no values give a zero sum of counts |
| Summaries.CountSumSnoc | script.js:200 | one more value adds the number of times it is among the keys |
| Summaries.AscendingOnce | script.js:201 | a strictly ascending list holds each of its strings once |
| Summaries.CountSumCovers | script.js:200-201 | when every value is among distinct keys, the counts of the keys add up to the number of values |
| Summaries.CountsOfTotal | script.js:201 | the per-month table's total is the sum of the tally's counts over its keys |
| Summaries.MonthTotal | script.js:200-201 | the sorted per-month table counts every record |
| Csv.Escape | script.js:159 | escaping never shortens a cell (the exact effect is stated by `EscapeLength` and `ReadQuotedEscape`) |
| Csv.EscapeLength | script.js:159 | escaping adds one character per quote, and a text without quotes is left as it is |
| Csv.Quote | script.js:159 | a written cell starts and ends with a quote, and reading it back gives the original text |
| Csv.QuoteAll | script.js:159 | every cell of a row is quoted, in order |
| Csv.EncodeRow | script.js:159 | a row is written as nothing exactly when it has no cells |
| Csv.EncodeRows | script.js:159 | every row is written, in order |
| Csv.Encode | script.js:159 | no rows are written as nothing, and rows whose first row has a cell as a non-empty text |
| Csv.ReadQuoted | script.js:159 | what follows a cell is shorter than the text read |
| Csv.ReadField | script.js:159 | what follows a cell is shorter than the text read |
| Csv.ReadRow | script.js:159 | a row read has at least one cell |
| Csv.ReadRows | script.js:159 | a text read has at least one row |
| Csv.ReadQuotedClose | script.js:159 | a lone quote closes a cell |
| Csv.ReadQuotedPair | script.js:159 | a doubled quote reads as one quote of the cell |
| Csv.ReadQuotedChar | script.js:159 | any other character is a character of the cell |
| Csv.ReadQuotedEscape | script.js:159 | an escaped cell and its closing quote read back as the cell, with what follows left over |
| Csv.ReadFieldQuote | script.js:159 | a written cell reads back as itself, with what follows left over |
| Csv.ReadRowEncode | script.js:159 | a written row reads back as its cells |
| Csv.ReadRowsEncode | script.js:159 | written rows read back as themselves |
| Csv.DecodeEncode | script.js:159 | reading what was written gives back the rows, whenever no row is empty |
| Csv.LatenessRows | script.js:158 | each record gives the row name, class, date, time, reason |
| Csv.ExportLateness | script.js:156-160 | nothing is written when there are no records; otherwise the file reads back as the header `Nama`, `Kelas`, `Tanggal`, `Jam`, `Alasan` and then one row per record, in list order, with its five fields |
| Csv.MonthlyRows | script.js:166 | each month gives the row month, count in decimal |
| Csv.MonthlyReadBack | script.js:166-167 | the monthly file reads back as its header and rows, and each count column reads back as the count |
| Csv.ExportMonthly | script.js:163-168 | nothing is written when there are no records; otherwise the file reads back as the header `Bulan`, `Jumlah` and then one row per month, ascending, whose count column reads back as that month's count |

## Left out

- Network sync, `loadFromServer` and local storage (script.js:15-44) are I/O. The model starts from given lists.
- DOM rendering, `FileReader`, alerts, confirmation dialogs and toasts are user-interface code. A confirmation is taken as accepted.
- The student select filtered by class (script.js:113-116) only fills a select.
- Charts, `randColor` and the PDF export (script.js:172-205) call foreign libraries. The counts they draw are modelled.
- `setNow` (script.js:119-120) reads the clock. Date and time are parameters of `Store.RecordLateness`.
- Ids: `Date.now()+Math.random()` becomes a counter in the state. No uniqueness is claimed, because the script does not guarantee it.
- Text.Lower: `toLowerCase` is modelled for ASCII letters only, because full Unicode case mapping is out of scope.
- Text.LexLe: compares code points, while JavaScript compares UTF-16 code units. The two orders differ only for characters above U+FFFF.
- Text.DecimalString: `String(n)` switches to exponent notation from 10^21 on. Counts are bounded by list lengths, so this is not modelled.
- Summaries.MonthKey: string lengths and `slice(0, 7)` count code points in the model, while JavaScript counts UTF-16 code units. The two keys differ only when a character above U+FFFF falls within the first seven of a date, which never happens for a `YYYY-MM-DD` date; `Summaries.RecordMonths`, `Summaries.MonthCounts` and `Csv.ExportMonthly` inherit this.
- Summaries.MonthCounts: script.js:166 sorts `[month, count]` pairs by their text `month,count`, and script.js:201 sorts the months. The model sorts by month only. The two differ only when one month key is a proper prefix of another, which cannot happen for `YYYY-MM-DD` dates.
- Summaries.ClassCounts: no order of the entries is claimed. JavaScript objects list integer-like keys such as `7` first, in numeric order, and the others in insertion order.
- Summaries.RosterClassCounts: no order of the entries is claimed, for the same reason.
- Counting.Bump: the model's table keeps keys in the order they first appear. A JavaScript object lists integer-like keys such as `7` first, so for such classes the order of script.js:93 differs; the counts are the same.
- Special property names such as `__proto__` as a class are not modelled as object keys.
- Missing fields in records loaded from the server (`r.name||''`, `r.reason||''`) are not modelled; every field is a string.
- The delete buttons of a filtered table carry the row index within the filtered list (script.js:138). The deletion applies it to the full list (script.js:141). This mapping is user-interface code and is not modelled; deletion is by index into the full list.
- The file text is taken as already decoded characters; the UTF-8 decoding of the file is not modelled.
- Csv.Escape: its own contract only bounds the length. The meaning of escaping is stated by `Csv.EscapeLength` and by the read-back of `Csv.Quote`.
- The CSV reader (`Csv.Decode` and the functions under it) is not part of the script. It exists only to state what the written files hold.
