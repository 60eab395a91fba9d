/**
 * The attendance session: the list of records (roll, name, status) shown for
 * the selected class on today's date, and the pure transformations the
 * component applies to it — building it from the roster, marking a status,
 * merging a newly added student, and projecting it for saving.
 *
 * Statuses entered through the page are `"P"` or `"A"`, and `""` means not
 * yet marked. A record that comes back from the server may lack a status, so
 * the status is an `Option`.
 */
module Session {
  import opened Wrappers

  /** A roster entry as the server lists it. */
  datatype Student = Student(roll: string, name: string)

  /** One row of the session. */
  datatype Record = Record(roll: string, name: string, status: Option<string>)

  /** One row of what is sent when attendance is saved. */
  datatype SaveRecord = SaveRecord(roll: string, status: string)

  /** No two records of the session share a roll. */
  predicate DistinctRolls(s: seq<Record>) {
    forall i, j :: 0 <= i < j < |s| ==> s[i].roll != s[j].roll
  }

  /** No two roster entries share a roll. */
  predicate DistinctRoster(roster: seq<Student>) {
    forall i, j :: 0 <= i < j < |roster| ==> roster[i].roll != roster[j].roll
  }

  /** Some record of the session has this roll. */
  predicate HasRoll(s: seq<Record>, roll: string) {
    exists i :: 0 <= i < |s| && s[i].roll == roll
  }

  /**
   * `s` is the unmarked session for `roster`: one record per student, in
   * roster order, each with the student's roll and name and status `""`.
   */
  predicate IsUnmarkedSessionOf(s: seq<Record>, roster: seq<Student>) {
    && |s| == |roster|
    && forall i :: 0 <= i < |s| ==>
         s[i].roll == roster[i].roll && s[i].name == roster[i].name && s[i].status == Some("")
  }

  /** The unmarked session of a roster: each student in turn, with status `""`. */
  function FromRoster(roster: seq<Student>): (r: seq<Record>)
    ensures IsUnmarkedSessionOf(r, roster)
  {
    if roster == [] then []
    else
      var last := roster[|roster| - 1];
      FromRoster(roster[..|roster| - 1]) + [Record(last.roll, last.name, Some(""))]
  }

  /**
   * The session a class starts with: the attendance saved for today when the
   * server returns a non-empty list (absent when it returns nothing), and
   * otherwise the unmarked session built from the roster.
   */
  function InitialSession(roster: seq<Student>, saved: Option<seq<Record>>): (r: seq<Record>)
    ensures saved.Some? && |saved.value| > 0 ==> r == saved.value
    ensures saved.None? || saved.value == [] ==> IsUnmarkedSessionOf(r, roster)
  {
    if saved.Some? && |saved.value| > 0 then saved.value else FromRoster(roster)
  }

  /** The position of the first record with this roll, if there is one. */
  function FindByRoll(s: seq<Record>, roll: string): (r: Option<nat>)
    ensures r.Some? ==> r.value < |s| && s[r.value].roll == roll
    ensures r.Some? ==> forall j :: 0 <= j < r.value ==> s[j].roll != roll
    ensures r.None? <==> !HasRoll(s, roll)
  {
    if s == [] then None
    else if s[0].roll == roll then Some(0)
    else
      match FindByRoll(s[1..], roll)
      case None =>
        assert forall i :: 1 <= i < |s| ==> s[i] == s[1..][i - 1];
        None
      case Some(k) => Some(k + 1)
  }

  /** Each record with the roll gets the new status; every other record stays as it is. */
  function SetStatus(s: seq<Record>, roll: string, status: string): (r: seq<Record>)
    ensures |r| == |s|
    ensures forall i :: 0 <= i < |s| && s[i].roll == roll ==>
      r[i] == Record(s[i].roll, s[i].name, Some(status))
    ensures forall i :: 0 <= i < |s| && s[i].roll != roll ==> r[i] == s[i]
  {
    if s == [] then []
    else
      var last := s[|s| - 1];
      var mark := if last.roll == roll then last.(status := Some(status)) else last;
      SetStatus(s[..|s| - 1], roll, status) + [mark]
  }

  /**
   * The session after adding a student: unchanged when a record with that
   * roll already exists, and otherwise the student appended unmarked.
   */
  function MergeStudent(s: seq<Record>, roll: string, name: string): (r: seq<Record>)
    ensures HasRoll(s, roll) ==> r == s
    ensures !HasRoll(s, roll) ==> r == s + [Record(roll, name, Some(""))]
  {
    if FindByRoll(s, roll).Some? then s else s + [Record(roll, name, Some(""))]
  }

  /**
   * What is sent when saving: for each record in turn, its roll and its
   * status, with a missing status sent as `""`.
   */
  function SaveProjection(s: seq<Record>): (r: seq<SaveRecord>)
    ensures |r| == |s|
    ensures forall i :: 0 <= i < |s| ==> r[i].roll == s[i].roll
    ensures forall i :: 0 <= i < |s| ==>
      r[i].status == (if s[i].status.Some? then s[i].status.value else "")
  {
    if s == [] then []
    else
      var last := s[|s| - 1];
      SaveProjection(s[..|s| - 1]) + [SaveRecord(last.roll, last.status.GetOr(""))]
  }

  // ---------------------------------------------------------------------
  // Building the session

  /** Distinct rolls in the roster give distinct rolls in the unmarked session. */
  lemma FromRosterDistinct(roster: seq<Student>)
    requires DistinctRoster(roster)
    ensures DistinctRolls(FromRoster(roster))
  {
  }

  /** The unmarked session is unique: any two sessions that match the roster are equal. */
  lemma UnmarkedSessionUnique(s: seq<Record>, t: seq<Record>, roster: seq<Student>)
    requires IsUnmarkedSessionOf(s, roster) && IsUnmarkedSessionOf(t, roster)
    ensures s == t
  {
  }

  /** Saving an unmarked session sends every roster roll, in order, with status `""`. */
  lemma SaveOfUnmarkedSession(roster: seq<Student>)
    ensures var r := SaveProjection(FromRoster(roster));
      |r| == |roster| && forall i :: 0 <= i < |r| ==> r[i] == SaveRecord(roster[i].roll, "")
  {
  }

  // ---------------------------------------------------------------------
  // Status changes

  /** A status change keeps the rolls, names and order of the session. */
  lemma SetStatusKeepsRollsAndNames(s: seq<Record>, roll: string, status: string)
    ensures var r := SetStatus(s, roll, status);
      forall i :: 0 <= i < |s| ==> r[i].roll == s[i].roll && r[i].name == s[i].name
  {
  }

  /** Marking a roll that is not in the session leaves the session unchanged. */
  lemma SetStatusUnknownRoll(s: seq<Record>, roll: string, status: string)
    requires !HasRoll(s, roll)
    ensures SetStatus(s, roll, status) == s
  {
  }

  /** When rolls are distinct, a status change rewrites exactly the one record with that roll. */
  lemma SetStatusTouchesOneRecord(s: seq<Record>, k: nat, status: string)
    requires DistinctRolls(s) && k < |s|
    ensures SetStatus(s, s[k].roll, status) == s[k := s[k].(status := Some(status))]
  {
  }

  /** A status change keeps the rolls distinct. */
  lemma SetStatusKeepsDistinct(s: seq<Record>, roll: string, status: string)
    requires DistinctRolls(s)
    ensures DistinctRolls(SetStatus(s, roll, status))
  {
  }

  /** Of two changes to the same roll, the later one wins. */
  lemma SetStatusLastWins(s: seq<Record>, roll: string, first: string, second: string)
    ensures SetStatus(SetStatus(s, roll, first), roll, second) == SetStatus(s, roll, second)
  {
  }

  /** Changes to two different rolls do not interfere: their order does not matter. */
  lemma SetStatusCommutes(s: seq<Record>, roll1: string, st1: string, roll2: string, st2: string)
    requires roll1 != roll2
    ensures SetStatus(SetStatus(s, roll1, st1), roll2, st2)
         == SetStatus(SetStatus(s, roll2, st2), roll1, st1)
  {
    var a := SetStatus(SetStatus(s, roll1, st1), roll2, st2);
    var b := SetStatus(SetStatus(s, roll2, st2), roll1, st1);
    assert |a| == |b| == |s|;
    forall i | 0 <= i < |s|
      ensures a[i] == b[i]
    {
      if s[i].roll == roll1 {
        assert a[i] == b[i] == Record(s[i].roll, s[i].name, Some(st1));
      } else if s[i].roll == roll2 {
        assert a[i] == b[i] == Record(s[i].roll, s[i].name, Some(st2));
      } else {
        assert a[i] == b[i] == s[i];
      }
    }
  }

  /** After a status change, saving sends that status for every record with the roll. */
  lemma SaveAfterSetStatus(s: seq<Record>, roll: string, status: string)
    ensures var r := SaveProjection(SetStatus(s, roll, status));
      forall i :: 0 <= i < |s| && s[i].roll == roll ==> r[i] == SaveRecord(roll, status)
  {
  }

  // ---------------------------------------------------------------------
  // Adding a student

  /** After the merge, the session has a record with the added roll. */
  lemma MergeHasRoll(s: seq<Record>, roll: string, name: string)
    ensures HasRoll(MergeStudent(s, roll, name), roll)
  {
    var r := MergeStudent(s, roll, name);
    if !HasRoll(s, roll) {
      assert r[|s|].roll == roll;
    }
  }

  /** The merge keeps every existing record, with its status, at its place. */
  lemma MergeKeepsExisting(s: seq<Record>, roll: string, name: string)
    ensures var r := MergeStudent(s, roll, name);
      |s| <= |r| <= |s| + 1 && r[..|s|] == s
  {
  }

  /** Adding the same student twice is the same as adding once. */
  lemma MergeIdempotent(s: seq<Record>, roll: string, name: string)
    ensures MergeStudent(MergeStudent(s, roll, name), roll, name) == MergeStudent(s, roll, name)
  {
    MergeHasRoll(s, roll, name);
  }

  /** The merge keeps the rolls distinct. */
  lemma MergeKeepsDistinct(s: seq<Record>, roll: string, name: string)
    requires DistinctRolls(s)
    ensures DistinctRolls(MergeStudent(s, roll, name))
  {
  }

  // ---------------------------------------------------------------------
  // A day's use

  /**
   * Two students with different rolls and nothing saved yet: after marking
   * the first and then the second, saving sends exactly those two marks, in
   * roster order.
   */
  lemma MarkTwoAndSave(first: Student, second: Student, p: string, q: string)
    requires first.roll != second.roll
    ensures var s0 := InitialSession([first, second], None);
      SaveProjection(SetStatus(SetStatus(s0, first.roll, p), second.roll, q))
        == [SaveRecord(first.roll, p), SaveRecord(second.roll, q)]
  {
  }

  /** Roll 1 (Ann) marked present and roll 2 (Bo) absent: saving sends (1, P), (2, A). */
  lemma MarkAnnAndBo()
    ensures var s0 := InitialSession([Student("1", "Ann"), Student("2", "Bo")], None);
      SaveProjection(SetStatus(SetStatus(s0, "1", "P"), "2", "A"))
        == [SaveRecord("1", "P"), SaveRecord("2", "A")]
  {
  }

  // ---------------------------------------------------------------------
  // The status domain

  /** A status the page can hold: missing, not marked, present or absent. */
  predicate KnownStatus(status: Option<string>) {
    status.None? || status.value == "" || status.value == "P" || status.value == "A"
  }

  /** Every record of the session has a known status. */
  predicate KnownStatuses(s: seq<Record>) {
    forall i :: 0 <= i < |s| ==> KnownStatus(s[i].status)
  }

  /** What a radio button sends: present or absent. */
  predicate IsMark(status: string) {
    status == "P" || status == "A"
  }

  /** The unmarked session has only known statuses. */
  lemma FromRosterKnownStatuses(roster: seq<Student>)
    ensures KnownStatuses(FromRoster(roster))
  {
  }

  /** A session built on loading has known statuses whenever the saved list has. */
  lemma InitialSessionKnownStatuses(roster: seq<Student>, saved: Option<seq<Record>>)
    requires saved.Some? ==> KnownStatuses(saved.value)
    ensures KnownStatuses(InitialSession(roster, saved))
  {
  }

  /** A click on P or A keeps every status known. */
  lemma SetStatusKeepsKnownStatuses(s: seq<Record>, roll: string, status: string)
    requires KnownStatuses(s) && IsMark(status)
    ensures KnownStatuses(SetStatus(s, roll, status))
  {
  }

  /** Adding a student keeps every status known. */
  lemma MergeKeepsKnownStatuses(s: seq<Record>, roll: string, name: string)
    requires KnownStatuses(s)
    ensures KnownStatuses(MergeStudent(s, roll, name))
  {
  }

  /** Saving a session with known statuses sends only `"P"`, `"A"` or `""`. */
  lemma SaveSendsKnownStatuses(s: seq<Record>)
    requires KnownStatuses(s)
    ensures var r := SaveProjection(s);
      forall i :: 0 <= i < |r| ==> r[i].status == "" || r[i].status == "P" || r[i].status == "A"
  {
  }
}
