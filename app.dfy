/**
 * The attendance page's state and handlers. The page keeps the selected
 * class, the roster shown beside it and the attendance session for today;
 * its handlers replace that state. Calls to the server are not made here:
 * a handler returns the calls it makes, in order, and how each call ended
 * (rejected, or resolved with its answer) is passed in as a parameter.
 */
module App {
  import opened Wrappers
  import Text
  import DateKey
  import opened Session

  /** How a call to the server ended: rejected, or resolved with an answer. */
  datatype Response<+T> = Rejected | Resolved(value: T)

  /** A call the page makes to the server. */
  datatype Call =
    | GetStudents(className: string)
    | GetAttendance(className: string, date: string)
    | AddStudent(className: string, roll: string, name: string)
    | SaveAttendance(className: string, date: string, records: seq<SaveRecord>)
    | DownloadCsv(className: string)

  /** A file the browser is given to save: its name and its contents. */
  datatype SavedFile = SavedFile(name: string, contents: string)

  /**
   * An input with its surrounding whitespace removed; it is empty exactly
   * when the input is blank.
   */
  function Trim(s: string): (r: string)
    ensures r == [] <==> Text.AllIn(s, Text.IsSpace)
    ensures r != [] ==> !Text.IsSpace(r[0]) && !Text.IsSpace(r[|r| - 1])
  {
    Text.TrimEmptyIffAllSpace(s, Text.IsSpace);
    Text.Trim(s, Text.IsSpace)
  }

  /**
   * The name the class's CSV file is saved under: the class name with every
   * maximal run of whitespace turned into one underscore, then `.csv`.
   */
  function CsvFileName(className: string): (r: string)
    ensures |r| >= 4 && r[|r| - 4..] == ".csv"
    ensures |r| <= |className| + 4
    ensures Text.NoneIn(r[..|r| - 4], Text.IsSpace)
  {
    Text.ReplaceRunsNoSpace(className, Text.IsSpace);
    var stem := Text.ReplaceRuns(className, Text.IsSpace);
    assert (stem + ".csv")[..|stem|] == stem;
    stem + ".csv"
  }

  /** A class name without whitespace is used as it is. */
  lemma CsvFileNameOfPlainName(className: string)
    requires Text.NoneIn(className, Text.IsSpace)
    ensures CsvFileName(className) == className + ".csv"
  {
    Text.ReplaceRunsFixesNoSpace(className, Text.IsSpace);
  }

  /**
   * A run of whitespace between two other parts of the name becomes a single
   * underscore between the file-name forms of the parts.
   */
  lemma CsvFileNameOfRun(u: string, w: string, v: string)
    requires w != [] && Text.AllIn(w, Text.IsSpace)
    requires u == [] || !Text.IsSpace(u[|u| - 1])
    requires v == [] || !Text.IsSpace(v[0])
    ensures CsvFileName(u + w + v)
         == Text.ReplaceRuns(u, Text.IsSpace) + "_" + Text.ReplaceRuns(v, Text.IsSpace) + ".csv"
  {
    Text.RunBecomesUnderscore(u, w, v, Text.IsSpace);
  }

  /** The file-name stem is stable: deriving it again from itself changes nothing. */
  lemma CsvFileNameStable(className: string)
    ensures var r := CsvFileName(className);
      CsvFileName(r[..|r| - 4]) == r
  {
    var r := CsvFileName(className);
    CsvFileNameOfPlainName(r[..|r| - 4]);
    assert r[..|r| - 4] + ".csv" == r;
  }

  class AttendanceApp {
    /** The class chosen in the selector; `""` means none. */
    var selectedClass: string
    /** The roster shown for the selected class. */
    var students: seq<Student>
    /** The attendance session for the selected class on `today`. */
    var attendance: seq<Record>
    /** Today's date key. */
    const today: string

    /** Nothing selected, nothing loaded; `today` from the local date. */
    constructor(year: int, monthIndex: int, day: int)
      ensures today == DateKey.FormatDate(year, monthIndex, day)
      ensures selectedClass == "" && students == [] && attendance == []
    {
      today := DateKey.FormatDate(year, monthIndex, day);
      selectedClass := "";
      students := [];
      attendance := [];
    }

    /** The selector's `onChange`. */
    method SelectClass(className: string)
      modifies this
      ensures selectedClass == className
      ensures students == old(students) && attendance == old(attendance)
    {
      selectedClass := className;
    }

    /**
     * Loading the selected class. With no class selected, the roster and
     * the session are cleared and nothing is fetched. Otherwise the roster
     * is fetched; if that fails nothing changes. When it arrives it is shown
     * and today's saved attendance is fetched; if that fails the session is
     * left as it was, next to the new roster. When it arrives the session
     * starts as `InitialSession` says.
     */
    method LoadForClass(roster: Response<seq<Student>>, saved: Response<Option<seq<Record>>>)
      returns (calls: seq<Call>)
      modifies this
      ensures selectedClass == old(selectedClass)
      ensures calls == [] <==> selectedClass == ""
      ensures selectedClass == "" ==> students == [] && attendance == []
      ensures selectedClass != "" && roster.Rejected? ==>
        calls == [GetStudents(selectedClass)]
        && students == old(students) && attendance == old(attendance)
      ensures selectedClass != "" && roster.Resolved? ==>
        calls == [GetStudents(selectedClass), GetAttendance(selectedClass, today)]
        && students == roster.value
      ensures selectedClass != "" && roster.Resolved? && saved.Rejected? ==>
        attendance == old(attendance)
      ensures selectedClass != "" && roster.Resolved? && saved.Resolved? ==>
        attendance == InitialSession(roster.value, saved.value)
      ensures KnownStatuses(old(attendance)) ==>
        (saved.Resolved? && saved.value.Some? ==> KnownStatuses(saved.value.value)) ==>
        KnownStatuses(attendance)
    {
      if selectedClass == "" {
        students := [];
        attendance := [];
        return [];
      }
      calls := [GetStudents(selectedClass)];
      if roster.Rejected? {
        return;
      }
      students := roster.value;
      calls := calls + [GetAttendance(selectedClass, today)];
      if saved.Rejected? {
        return;
      }
      if saved.value.None? || KnownStatuses(saved.value.value) {
        InitialSessionKnownStatuses(roster.value, saved.value);
      }
      attendance := InitialSession(roster.value, saved.value);
    }

    /**
     * Adding a student. Nothing happens without a selected class or with a
     * blank roll or name. Otherwise the trimmed student is sent; if that
     * fails nothing changes. Then the roster is fetched again; if that fails
     * nothing changes either. When it arrives it is shown, and the session
     * gains the student unless a record with that roll is already there.
     */
    method HandleAddStudent(newRoll: string, newName: string, added: Response<()>, refetched: Response<seq<Student>>)
      returns (calls: seq<Call>)
      modifies this
      ensures selectedClass == old(selectedClass)
      ensures calls == [] <==> selectedClass == "" || Trim(newRoll) == [] || Trim(newName) == []
      ensures calls == [] ==> students == old(students) && attendance == old(attendance)
      ensures calls != [] ==> calls[0] == AddStudent(selectedClass, Trim(newRoll), Trim(newName))
      ensures calls != [] && added.Rejected? ==>
        |calls| == 1 && students == old(students) && attendance == old(attendance)
      ensures calls != [] && added.Resolved? ==>
        calls == [AddStudent(selectedClass, Trim(newRoll), Trim(newName)), GetStudents(selectedClass)]
      ensures calls != [] && added.Resolved? && refetched.Rejected? ==>
        students == old(students) && attendance == old(attendance)
      ensures calls != [] && added.Resolved? && refetched.Resolved? ==>
        && students == refetched.value
        && attendance == MergeStudent(old(attendance), Trim(newRoll), Trim(newName))
        && HasRoll(attendance, Trim(newRoll))
      ensures DistinctRolls(old(attendance)) ==> DistinctRolls(attendance)
      ensures KnownStatuses(old(attendance)) ==> KnownStatuses(attendance)
    {
      if selectedClass == "" {
        return [];
      }
      var roll := Trim(newRoll);
      var name := Trim(newName);
      if roll == [] || name == [] {
        return [];
      }
      calls := [AddStudent(selectedClass, roll, name)];
      if added.Rejected? {
        return;
      }
      calls := calls + [GetStudents(selectedClass)];
      if refetched.Rejected? {
        return;
      }
      students := refetched.value;
      MergeHasRoll(attendance, roll, name);
      if DistinctRolls(attendance) {
        MergeKeepsDistinct(attendance, roll, name);
      }
      if KnownStatuses(attendance) {
        MergeKeepsKnownStatuses(attendance, roll, name);
      }
      attendance := MergeStudent(attendance, roll, name);
    }

    /**
     * A click on a radio button: the session becomes `SetStatus` of the old
     * one. The buttons send `"P"` or `"A"`, which keeps every status known.
     */
    method HandleStatusChange(roll: string, status: string)
      modifies this
      ensures selectedClass == old(selectedClass) && students == old(students)
      ensures attendance == SetStatus(old(attendance), roll, status)
      ensures DistinctRolls(old(attendance)) ==> DistinctRolls(attendance)
      ensures KnownStatuses(old(attendance)) && IsMark(status) ==> KnownStatuses(attendance)
    {
      if DistinctRolls(attendance) {
        SetStatusKeepsDistinct(attendance, roll, status);
      }
      if KnownStatuses(attendance) && IsMark(status) {
        SetStatusKeepsKnownStatuses(attendance, roll, status);
      }
      attendance := SetStatus(attendance, roll, status);
    }

    /**
     * Saving: without a selected class nothing is sent; otherwise every
     * record of the session is sent, in order, as its roll and its status
     * (`""` when it has none), under today's key. Whether the call succeeds
     * changes no state.
     */
    method HandleSaveAttendance() returns (calls: seq<Call>)
      ensures calls == [] <==> selectedClass == ""
      ensures calls != [] ==> |calls| == 1 && calls[0].SaveAttendance?
      ensures calls != [] ==> calls[0].className == selectedClass && calls[0].date == today
      ensures calls != [] ==> |calls[0].records| == |attendance|
      ensures calls != [] ==> forall i :: 0 <= i < |attendance| ==>
        calls[0].records[i].roll == attendance[i].roll
        && calls[0].records[i].status == attendance[i].status.GetOr("")
      ensures calls != [] && KnownStatuses(attendance) ==> forall i :: 0 <= i < |attendance| ==>
        calls[0].records[i].status in {"", "P", "A"}
    {
      if selectedClass == "" {
        return [];
      }
      if KnownStatuses(attendance) {
        SaveSendsKnownStatuses(attendance);
      }
      calls := [SaveAttendance(selectedClass, today, SaveProjection(attendance))];
    }

    /**
     * Downloading: without a selected class nothing is fetched. Otherwise
     * the class's CSV is fetched; if that fails nothing is saved, and when
     * it arrives it is saved under `CsvFileName` of the class.
     */
    method HandleDownload(csv: Response<string>) returns (calls: seq<Call>, file: Option<SavedFile>)
      ensures calls == [] <==> selectedClass == ""
      ensures calls != [] ==> calls == [DownloadCsv(selectedClass)]
      ensures file.Some? <==> selectedClass != "" && csv.Resolved?
      ensures file.Some? ==> file.value == SavedFile(CsvFileName(selectedClass), csv.value)
    {
      if selectedClass == "" {
        return [], None;
      }
      calls := [DownloadCsv(selectedClass)];
      file := if csv.Resolved? then Some(SavedFile(CsvFileName(selectedClass), csv.value)) else None;
    }
  }
}
