/** The two in-memory lists and the user actions that change them
    (script.js lines 54-62, 76-78, 85, 102, 124-129 and 141), as functions
    from one state to the next. A rejected action is answered with an alert
    in the script and leaves the state as it was. */
module Store {
  import opened Wrappers
  import opened Text
  import opened Seqs
  import opened Records
  import RosterImport
  import Summaries
  import Counting

  /** The roster, the lateness list (newest first) and the next id to hand
      out. */
  datatype State = State(students: seq<Student>, lateness: seq<Lateness>, nextId: Id)

  /** Why an action was refused: an empty name or class, no student chosen,
      or a chosen student that is no longer on the roster. */
  datatype Rejection = MissingField | NoStudentSelected | StudentNotFound

  datatype Outcome = Done | Rejected(why: Rejection)

  /** The state after an action, and whether the action went through. */
  datatype Step = Step(state: State, outcome: Outcome)

  // ----------------------------------------------------------- students

  /** The manual entry form (script.js:76-78): both fields are trimmed; if
      either is then empty nothing changes, otherwise one student with the
      trimmed values is appended. */
  function AddStudent(s: State, name: string, klass: string): (r: Step)
    ensures r.outcome.Rejected? <==> Blank(name) || Blank(klass)
    ensures r.outcome.Rejected? ==> r.outcome.why == MissingField && r.state == s
    ensures r.outcome.Done? ==>
      && r.state.students == s.students + [Student(s.nextId, Trim(name), Trim(klass))]
      && Trim(name) != "" && Trim(klass) != ""
      && r.state.lateness == s.lateness
      && r.state.nextId > s.nextId
  {
    var n := Trim(name);
    var k := Trim(klass);
    if n == "" || k == "" then Step(s, Rejected(MissingField))
    else Step(State(s.students + [Student(s.nextId, n, k)], s.lateness, s.nextId + 1), Done)
  }

  /** Appends the students of an import, in order, each with a fresh id. */
  function AppendAll(s: State, entries: seq<RosterImport.Parsed>): (r: State)
    ensures |r.students| == |s.students| + |entries|
    ensures r.students[..|s.students|] == s.students
    ensures forall j | 0 <= j < |entries| ::
      r.students[|s.students| + j] == Student(s.nextId + j, entries[j].name, entries[j].klass)
    ensures r.lateness == s.lateness
    ensures r.nextId == s.nextId + |entries|
    decreases |entries|
  {
    if |entries| == 0 then s
    else
      var e := entries[0];
      AppendAll(State(s.students + [Student(s.nextId, e.name, e.klass)], s.lateness, s.nextId + 1), entries[1..])
  }

  /** Appending a list of valid entries: the old students stay in front
      and each entry becomes one student with its name and class. */
  lemma AppendAllShape(s: State, entries: seq<RosterImport.Parsed>)
    requires forall i | 0 <= i < |entries| :: RosterImport.Valid(entries[i].name, entries[i].klass)
    ensures var r := AppendAll(s, entries);
      && |r.students| == |s.students| + |entries|
      && r.students[..|s.students|] == s.students
      && (forall j | 0 <= j < |entries| ::
            r.students[|s.students| + j].name == entries[j].name && r.students[|s.students| + j].klass == entries[j].klass)
      && (forall j | |s.students| <= j < |r.students| :: RosterImport.Valid(r.students[j].name, r.students[j].klass))
      && r.lateness == s.lateness
  {
    var r := AppendAll(s, entries);
    forall j | |s.students| <= j < |r.students|
      ensures RosterImport.Valid(r.students[j].name, r.students[j].klass)
    {
      var i := j - |s.students|;
      assert r.students[|s.students| + i] == Student(s.nextId + i, entries[i].name, entries[i].klass);
    }
  }

  /** Importing a file (script.js:54-62): the existing students stay, in
      order, and after them comes one student per accepted line, in file
      order, each with a name and class a manual entry would also accept. */
  function ImportStudents(s: State, text: string): (r: State)
    ensures |r.students| == |s.students| + |RosterImport.ParseText(text)|
    ensures r.students[..|s.students|] == s.students
    ensures forall j | 0 <= j < |RosterImport.ParseText(text)| ::
      && r.students[|s.students| + j].name == RosterImport.ParseText(text)[j].name
      && r.students[|s.students| + j].klass == RosterImport.ParseText(text)[j].klass
    ensures forall j | |s.students| <= j < |r.students| :: RosterImport.Valid(r.students[j].name, r.students[j].klass)
    ensures r.lateness == s.lateness
  {
    var entries := RosterImport.ParseText(text);
    AppendAllShape(s, entries);
    AppendAll(s, entries)
  }

  /** The "clear roster" button (script.js:85): no students remain, the
      lateness records are kept. */
  function ClearStudents(s: State): (r: State)
    ensures r.students == [] && r.lateness == s.lateness
  {
    State([], s.lateness, s.nextId)
  }

  /** Deleting the student in row `i` (script.js:102). The lateness records
      that copied the student's name and class are not touched. */
  function DeleteStudent(s: State, i: nat): (r: State)
    ensures r.students == RemoveAt(s.students, i)
    ensures r.lateness == s.lateness
  {
    State(RemoveAt(s.students, i), s.lateness, s.nextId)
  }

  // ----------------------------------------------------------- lateness

  /** `students.find(x => x.id == sid)`: the position of the first student
      with the id, if any. */
  function FindStudent(students: seq<Student>, id: Id): (r: Option<nat>)
    ensures r.Some? ==> r.value < |students| && students[r.value].id == id
    ensures r.Some? ==> forall j | 0 <= j < r.value :: students[j].id != id
    ensures r.None? ==> forall j | 0 <= j < |students| :: students[j].id != id
    decreases |students|
  {
    if |students| == 0 then None
    else if students[0].id == id then Some(0)
    else
      match FindStudent(students[1..], id)
      case None => None
      case Some(i) => Some(i + 1)
  }

  /** Recording a late arrival (script.js:124-129). Without a selection, or
      when no student has the selected id, nothing changes. Otherwise the
      new record, carrying the name and class of the first student with
      that id, goes in front of the list and nothing else changes. */
  function RecordLateness(s: State, selected: Option<Id>, date: string, time: string, reason: string): (r: Step)
    ensures selected.None? ==> r == Step(s, Rejected(NoStudentSelected))
    ensures selected.Some? && (forall j | 0 <= j < |s.students| :: s.students[j].id != selected.value)
      ==> r == Step(s, Rejected(StudentNotFound))
    ensures selected.Some? && (exists j | 0 <= j < |s.students| :: s.students[j].id == selected.value)
      ==> r.outcome.Done?
    ensures r.outcome.Done? ==>
      && selected.Some?
      && r.state.students == s.students
      && |r.state.lateness| == |s.lateness| + 1
      && r.state.lateness[1..] == s.lateness
      && (exists i | 0 <= i < |s.students| ::
           && s.students[i].id == selected.value
           && (forall j | 0 <= j < i :: s.students[j].id != selected.value)
           && r.state.lateness[0] == Lateness(s.nextId, s.students[i].name, s.students[i].klass, date, time, reason))
    ensures r.outcome.Rejected? ==> r.state == s
  {
    match selected
    case None => Step(s, Rejected(NoStudentSelected))
    case Some(id) =>
      match FindStudent(s.students, id)
      case None => Step(s, Rejected(StudentNotFound))
      case Some(i) =>
        var st := s.students[i];
        var rec := Lateness(s.nextId, st.name, st.klass, date, time, reason);
        assert ([rec] + s.lateness)[1..] == s.lateness;
        Step(State(s.students, [rec] + s.lateness, s.nextId + 1), Done)
  }

  /** Deleting the lateness record in row `i` (script.js:141); the roster is
      not touched. */
  function DeleteLateness(s: State, i: nat): (r: State)
    ensures r.lateness == RemoveAt(s.lateness, i)
    ensures r.students == s.students
  {
    State(s.students, RemoveAt(s.lateness, i), s.nextId)
  }

  // ------------------------------------------------------------- lemmas

  /** Deleting the row a manual entry just added gives the roster back. */
  lemma AddThenDelete(s: State, name: string, klass: string)
    requires AddStudent(s, name, klass).outcome.Done?
    ensures DeleteStudent(AddStudent(s, name, klass).state, |s.students|).students == s.students
  {
    var t := AddStudent(s, name, klass).state;
    assert t.students[..|s.students|] == s.students;
  }

  /** Deleting the newest lateness record undoes recording it. */
  lemma RecordThenDelete(s: State, selected: Option<Id>, date: string, time: string, reason: string)
    requires RecordLateness(s, selected, date, time, reason).outcome.Done?
    ensures DeleteLateness(RecordLateness(s, selected, date, time, reason).state, 0).lateness == s.lateness
  {
  }

  /** Importing a single `name,class` line adds the same student as typing
      that name and class into the form. */
  lemma ImportLineIsAdd(s: State, name: string, klass: string)
    requires RosterImport.Valid(name, klass)
    requires Free(name, RosterImport.IsLineFeed) && Free(klass, RosterImport.IsLineFeed)
    ensures AddStudent(s, name, klass).outcome.Done?
    ensures ImportStudents(s, name + "," + klass) == AddStudent(s, name, klass).state
  {
    var line := name + "," + klass;
    RosterImport.ParseTextNameClass(name, klass);
    var t := State(s.students + [Student(s.nextId, name, klass)], s.lateness, s.nextId + 1);
    assert Trim(name) == name && Trim(klass) == klass;
    assert AddStudent(s, name, klass).state == t;
    assert AppendAll(s, [RosterImport.Parsed(name, klass)]) == t;
    assert ImportStudents(s, line) == AppendAll(s, RosterImport.ParseText(line));
  }

  /** Recording a late arrival adds one to the count of the student's class
      in the per-class summary and leaves every other class's count as it
      was. */
  lemma RecordBumpsClassCount(s: State, selected: Option<Id>, date: string, time: string, reason: string)
    requires RecordLateness(s, selected, date, time, reason).outcome.Done?
    ensures var after := RecordLateness(s, selected, date, time, reason).state.lateness;
      forall k :: Counting.Lookup(Summaries.ClassCounts(after), k)
        == Counting.Lookup(Summaries.ClassCounts(s.lateness), k) + (if k == after[0].klass then 1 else 0)
  {
    var after := RecordLateness(s, selected, date, time, reason).state.lateness;
    assert after == [after[0]] + s.lateness;
    Summaries.ClassCountsCons(after[0], s.lateness);
  }
}
