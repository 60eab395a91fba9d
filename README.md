# Attendance page: session reconciliation

A Dafny model of the attendance page of a small class-attendance front end
(`src/App.js`). A teacher selects a class. The page then shows the class
roster and an attendance session for today: one record per student, with a
roll, a name and a status. The status is `"P"` (present), `"A"` (absent) or
`""` (not marked). The page keeps that session in memory and changes it in a
few ways:

- it builds the session when a class is loaded, either from the attendance
  already saved for today or from the roster;
- it changes one roll's status when a radio button is clicked;
- it merges a newly added student into the session;
- it projects the session to `{roll, status}` pairs when saving.

Two string computations complete the page:

- the date key `Y-MM-DD` that saved attendance is filed under;
- the CSV file name derived from the class name.

Modules:

- `Wrappers`: an `Option` type.
- `Text`: the JavaScript string operations the page uses.
  - `trim` and the `\s` whitespace class, given as the code points JavaScript counts as whitespace.
  - `padStart`.
  - the global replacement of every whitespace run by one `_`.
- `DateKey`: `formatDate` over the year, month index and day a `Date`
  reports. It also holds a reader for the key, which shows that the key
  determines the date.
- `Session`: the records and the pure transformations of the session (the
  `map`, `find` and spread expressions of the page), with their lemmas.
- `App`: the class `AttendanceApp`. Its fields are the state the page
  replaces: the selected class, the roster and the session. Its methods are
  the page's handlers. Instead of calling the server, a handler returns the
  calls it makes, in order. How each call ended is passed in as a
  `Response`: `Rejected`, or `Resolved` with the server's answer. The code
  catches no rejection, so a rejected call ends the handler where it stands,
  and the model keeps every path that follows from that.

Text functions take the whitespace class as a parameter (`space`). At every
call site the page's whitespace class, `Text.IsSpace`, is passed.

Points about the code that the model keeps as they are:

- The year in the date key is `String(year)`, not padded, so only years
  1000 to 9999 give four digits.
- The code has no guard against a late answer for a previously selected
  class overwriting the session.
- The code has no rule that every student must be marked before saving.
- When today's attendance cannot be fetched for a newly selected class, the
  new roster is shown next to the previous class's session, and a save then
  sends that session under the new class (`LoadForClass` keeps this path).
- When the roster cannot be fetched for a newly selected class, the previous
  roster and the previous session both stay on screen under the new class,
  and a save then sends that session under the new class (`LoadForClass`
  keeps this path too).

## Model

| member | source | states |
|---|---|---|
| Text.IsSpace | src/App.js:74 | the whitespace of `trim` and `\s`: space, tab, line feed and carriage return are whitespace; letters, digits, `_`, `-` and `.` are not |
| Text.TrimStart | src/App.js:74 | the result is the suffix of the input that follows the leading whitespace: what was cut is all whitespace, and the rest starts with a non-space character |
| Text.TrimEnd | src/App.js:74 | the result is the prefix of the input that precedes the trailing whitespace: what was cut is all whitespace, and the rest ends with a non-space character |
| Text.Trim | src/App.js:74-75 | the trimmed text is no longer than the input and neither starts nor ends with whitespace |
| App.Trim | src/App.js:74-75 | the page's `trim` of an input is empty exactly when the input is blank, and otherwise has no whitespace at either end |
| Text.TrimEmptyIffAllSpace | src/App.js:74 | `trim` gives `""` exactly when the string is all whitespace (both directions), which is the blank check of the add handler |
| Text.TrimDecomposes | src/App.js:74-75 | the string is the leading cut, then the trimmed text, then the trailing cut, so trimming only removes from the ends |
| Text.TrimCutsOnlySpace | src/App.js:74-75 | what `trim` removes at either end is whitespace only |
| Text.TrimIdempotent | src/App.js:75 | trimming a trimmed value changes nothing |
| Text.PadStart | src/App.js:12-13 | `padStart` gives length max(len, width), keeps the string as a suffix and fills the front with the pad character only |
| Text.ReplaceRuns | src/App.js:105 | the replacement never lengthens the string, and gives `""` exactly for `""` |
| Text.ReplaceRunsNoSpace | src/App.js:105 | after the run replacement no whitespace is left |
| Text.ReplaceRunsFixesNoSpace | src/App.js:105 | a string without whitespace is left as it is |
| Text.ReplaceRunsIdempotent | src/App.js:105 | replacing twice gives the same as replacing once |
| Text.ReplaceRunsSplit | src/App.js:105 | the replacement works piecewise across any cut that does not fall inside a whitespace run: right after or right before a non-space character, or at either end |
| Text.ReplaceRunsOfRun | src/App.js:105 | a whitespace run at the front becomes exactly one `_` |
| Text.RunBecomesUnderscore | src/App.js:105 | a maximal whitespace run anywhere becomes exactly one `_`, and both sides are replaced independently |
| DateKey.NatToString | src/App.js:11-13 | `String(n)` is all decimal digits, at least one, exactly one for n < 10, and starts with `0` only for 0 |
| DateKey.IntToString | src/App.js:11 | `String(i)` starts with `-` exactly for a negative number, and every other character is a digit |
| DateKey.FormatDate | src/App.js:10-15 | the key starts with `String(year)` followed by a dash, and has at least six characters after the year |
| DateKey.TwoDigitField | src/App.js:12-13 | for 1..99, the number's decimal digits left-padded with `0` to two characters are exactly the tens digit followed by the units digit |
| DateKey.FormatDateLayout | src/App.js:10-15 | for a calendar month index and day the key is `String(year)`, `-`, the two digits of month index + 1, `-`, the two digits of the day |
| DateKey.ParseNatInverse | src/App.js:11 | reading the decimal digits of `String(n)` gives n back |
| DateKey.ParseIntInverse | src/App.js:11 | `String(year)` reads back to the year for every integer, negative ones included |
| DateKey.ParseTwoDigits | src/App.js:12-13 | a two-digit field reads back to its number |
| DateKey.ParseKeyOfLayout | src/App.js:14 | a key with the `-MM-DD` layout reads back field by field |
| DateKey.ParseFormatDate | src/App.js:10-15 | reading the key of a calendar date gives the same year, month index and day, so the key loses nothing |
| DateKey.FormatDateInjective | src/App.js:10-15 | two calendar dates with the same key are the same date, so saves and fetches of different days never share a key |
| Session.FromRoster | src/App.js:53 | the unmarked session has one record per roster entry, in roster order, with that entry's roll and name and status `""` |
| Session.InitialSession | src/App.js:49-54 | a non-empty saved list is the session as it is, whatever the roster; an absent or empty one gives the unmarked session of the roster |
| Session.FindByRoll | src/App.js:79 | `find` returns the first record with the roll; it returns nothing exactly when no record has the roll |
| Session.SetStatus | src/App.js:88 | a status change keeps length and order, gives each record with the roll the new status (roll and name kept) and leaves every other record unchanged |
| Session.MergeStudent | src/App.js:78-81 | if the roll is present the session is unchanged; otherwise it is the old session with `{roll, name, ""}` appended |
| Session.SaveProjection | src/App.js:93 | the projection keeps length and order; element i has roll i and status i, with a missing status sent as `""` |
| Session.FromRosterDistinct | src/App.js:53 | distinct roster rolls give distinct session rolls |
| Session.UnmarkedSessionUnique | src/App.js:53 | the unmarked session of a roster is determined by the roster |
| Session.SaveOfUnmarkedSession | src/App.js:53 | saving an unmarked session sends every roster roll in order, each with `""` |
| Session.SetStatusKeepsRollsAndNames | src/App.js:88 | a status change never alters a roll or a name |
| Session.SetStatusUnknownRoll | src/App.js:88 | marking a roll that is not in the session leaves it unchanged |
| Session.SetStatusTouchesOneRecord | src/App.js:88 | when rolls are distinct, exactly one record changes, and only in its status |
| Session.SetStatusKeepsDistinct | src/App.js:88 | distinct rolls stay distinct after a status change |
| Session.SetStatusLastWins | src/App.js:88 | of two clicks on one roll the later one decides |
| Session.SetStatusCommutes | src/App.js:88 | clicks on different rolls can happen in either order |
| Session.SaveAfterSetStatus | src/App.js:88 | after a roll is marked, saving sends that mark for it |
| Session.MergeHasRoll | src/App.js:78-81 | after the merge the session has a record with the added roll |
| Session.MergeKeepsExisting | src/App.js:78-81 | the merge keeps every earlier record and its status in place, adding at most one at the end |
| Session.MergeIdempotent | src/App.js:79 | adding the same student twice gives the same session as adding once |
| Session.MergeKeepsDistinct | src/App.js:79-80 | distinct rolls stay distinct after the merge |
| Session.MarkTwoAndSave | src/App.js:53-93 | two students with different rolls and nothing saved: after marking the first with p and the second with q, saving sends exactly (first roll, p), (second roll, q) |
| Session.MarkAnnAndBo | src/App.js:53-93 | rolls 1 (Ann) and 2 (Bo), nothing saved, 1 marked P and 2 marked A: saving sends exactly (1, P), (2, A) |
| Session.FromRosterKnownStatuses | src/App.js:53 | the unmarked session holds only known statuses (missing, `""`, `"P"`, `"A"`) |
| Session.InitialSessionKnownStatuses | src/App.js:49-54 | the session built on loading holds only known statuses whenever the fetched list does |
| Session.SetStatusKeepsKnownStatuses | src/App.js:152-153 | a click on P or A keeps every status known |
| Session.MergeKeepsKnownStatuses | src/App.js:78-81 | adding a student keeps every status known |
| Session.SaveSendsKnownStatuses | src/App.js:93 | saving a session with known statuses sends only `"P"`, `"A"` or `""` |
| App.CsvFileName | src/App.js:105 | the file name ends in `.csv`, has no whitespace before it and is no longer than the class name plus four |
| App.CsvFileNameOfPlainName | src/App.js:105 | a class name without whitespace is the file name's stem as it is |
| App.CsvFileNameOfRun | src/App.js:105 | each maximal whitespace run in the class name becomes one `_` in the file name |
| App.CsvFileNameStable | src/App.js:105 | deriving the name again from its own stem gives the same file name |
| App.AttendanceApp.constructor | src/App.js:18-28 | nothing is selected and nothing is loaded; today's key is `formatDate` of the local date |
| App.AttendanceApp.SelectClass | src/App.js:118 | the selector sets the selected class and nothing else |
| App.AttendanceApp.LoadForClass | src/App.js:42-57 | no class: roster and session are cleared and no call is made; otherwise the roster is fetched (a rejection changes nothing), shown, then today's attendance is fetched (a rejection leaves the old session next to the new roster), and the session becomes `InitialSession`; known statuses stay known |
| App.AttendanceApp.HandleAddStudent | src/App.js:71-85 | no call and no change exactly when no class is selected or the trimmed roll or name is blank; otherwise the trimmed student is sent, and a rejection of that or of the roster refetch changes nothing; when both succeed the roster is the refetched one and the session is merged with the trimmed values and holds the roll; distinct rolls and known statuses are kept on every path |
| App.AttendanceApp.HandleStatusChange | src/App.js:87-89 | the session becomes `SetStatus` of the old one, distinct rolls stay distinct, a P or A click keeps statuses known, and nothing else changes |
| App.AttendanceApp.HandleSaveAttendance | src/App.js:91-97 | no call exactly when no class is selected; otherwise one save call with the class, today's key and, in session order, each record's roll and status (`""` when missing), only `"P"`, `"A"` or `""` when the statuses are known |
| App.AttendanceApp.HandleDownload | src/App.js:99-109 | no call exactly when no class is selected; otherwise one download call for the class, and a file is saved exactly when it resolves, named `CsvFileName` of the class and holding the answer |

## Left out

- `src/api.js` (the HTTP calls) is not part of this model. Each handler returns the calls it makes, and how each ended is a parameter.
- The order in which `await`s complete is not modelled. Each handler runs as one step with the answers it is given. The code does not guard against stale answers, and neither does the model.
- `useState`/`useEffect` scheduling is not modelled. `LoadForClass` is a method that the caller runs after `SelectClass`, where the page runs it as an effect.
- The initial class list load (src/App.js:30-39) and `handleCreateClass` (src/App.js:59-69) are not modelled as methods. Both select a class as well as fetching or creating names: the first selects the first class when none is selected (src/App.js:34-35), the second selects the class it created (src/App.js:65). Each selection then triggers a session load. The model covers that through `SelectClass` followed by `LoadForClass`.
- The messages and their clearing by `setTimeout` (src/App.js:68, 83-84, 95-96) are not modelled. `HandleSaveAttendance` and `HandleDownload` therefore change no state, whether their call succeeds or not.
- Clearing the add-student inputs (src/App.js:82) is not modelled, because form input state is left out.
- The Blob, object URL and link click of the download (src/App.js:101-108) are not modelled. Only the file's name and contents and the class fetched are kept.
- Rendering (src/App.js:111-166) is not modelled. Only the selector's `onChange` (`SelectClass`) and the radio buttons' `onChange` (`HandleStatusChange`) appear, as methods.
- The JavaScript `Date` and the local clock are replaced by the year, month index and day as integers.
- AttendanceApp.constructor: today's key is fixed when the page is constructed. The page recomputes it on every render, so a page left open past midnight would move to the next day's key, and the model does not capture that.
- A record from the server whose `status` is missing is `None`. A record whose status is another falsy value is not distinguished, since statuses are strings.
