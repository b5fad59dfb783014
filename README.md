# Meetings: schedule engine and lifecycle notifier

A model of the decision logic of a single-user meeting calendar. A meeting
has an id, a begin, an end and an optional notification time. The schedule
engine checks a proposed meeting against the stored ones before it stores,
edits, annotates or removes anything. The lifecycle notifier runs once per
clock tick. It raises `Notified`, `Started` and `Finished` events for the
meetings whose notification time, begin or end equals the current instant.

Timestamps are integer seconds. The clock reading is the parameter `now`
of every operation that reads the clock. The store holds the meetings as a
sequence. It is a class, `MeetingStore.Repository`: a field `records` keeps
the rows in the order the table returns them, taken to be insertion order,
and a field `identity` holds the next id the store assigns. The schedule (`ScheduleEngine.Schedule`) receives that store
in its constructor and changes it only through the store's `Add`, `Edit`
and `Remove`. `FindAll` is the sequence of records; `Find` and `Count` are
functions of it, so the queries cannot change anything.

Files:

- `meeting.dfy` (module `MeetingModel`): the `Meeting` datatype and its two constructors.
- `store.dfy` (module `MeetingStore`): the store. It has the row functions
  `FindFirst`, `FindLast`, `EditAll`, `RemoveAll` and `RemoveFirst`, their
  lemmas, and the `Repository` class.
- `schedule.dfy` (module `ScheduleEngine`): the model of the conflict test
  as written (`Intersects`), the acceptance condition (`Admissible`), the
  `Schedule` class, and lemmas about edits and notifications. It ends with
  three client methods. They drive a fresh schedule through a sequence of
  calls and assert each outcome the contracts predict.
- `notifier.dfy` (module `MeetingNotifier`): the per-tick events of one
  meeting (`TickEvents`) and of one pass (`ScanEvents`), the
  `MeetingUpdater` class with its `Update` loop, and a run of passes at
  increasing instants (`PollRun`).

Where the code does something other than what a calendar user would expect,
the model follows the code:

- The conflict test flags a candidate whose begin lies in `[m.begin, m.end)`
  or whose end lies in `(m.begin, m.end]`. A candidate that strictly
  encloses a stored meeting passes. `EnclosingNotFlagged` and
  `EnclosureScenario` show this, and `IntersectsCharacterised` states
  exactly which overlaps are caught. A calendar that refused every overlap
  would refuse the enclosing candidate too. The model claims no general
  overlap-freedom; `Admissible` states only that an accepted candidate
  overlaps no stored meeting except those it strictly encloses.
- `Edit` does not check that the id exists. An unknown id is validated
  against all stored meetings, and the store then has nothing to update.
- `AddNotification` on an unknown id fails by dereferencing a missing
  meeting. The model reports this as its own error, `NullReference`.
- The notifier fires on exact equality with `now`, not on the instant
  being crossed. `PollRunCount` states the consequence for any run of
  passes: an event fires once for every pass that falls on its instant, so
  a skipped second loses it and two passes in one second repeat it
  (`SameSecondTwice`). `PollRunOnce` is the case of strictly increasing
  instants: exactly once if some pass falls on the instant, never otherwise.
- The repository interface promises that `Find` returns the first row with
  the id. The database scan returns the last one. `FindFirstIsFindLast`
  shows the two agree while ids are unique, which the store's `Valid()`
  keeps.

## Model

| member | source | states |
|---|---|---|
| `MeetingModel.Create` | Meetings/Meetings/Data/Models/Meeting.cs:38-43 | begin, end and note are stored as given; the id keeps its default 0, so the meeting is not persisted |
| `MeetingModel.CreateWithId` | Meetings/Meetings/Data/Models/Meeting.cs:52-55 | equals the three-argument constructor with the id then set; persisted exactly when the id is not 0 |
| `MeetingStore.FindFirst` | Meetings/Meetings/Logic/Schedule/Schedule.cs:53 | a found row is in the list, has the id, and no earlier row has it; nothing is found exactly when no row has the id |
| `MeetingStore.FindLast` | Meetings/Meetings/Data/Repositories/MeetingDbRepository.cs:63-76 | the scan that keeps overwriting its answer: a found row is in the list, has the id, and no later row has it; none exactly when no row has it |
| `MeetingStore.FindFirstIsFindLast` | Meetings/Meetings/Data/Repositories/IDbRepository.cs:17-22 | with unique ids the first and the last match are the same, so the database scan keeps the interface's first-occurrence promise |
| `MeetingStore.FirstAndLastDiffer` | Meetings/Meetings/Data/Repositories/MeetingDbRepository.cs:67-73 | with two rows sharing an id, the scan answers with the second row where the first-occurrence search answers with the first |
| `MeetingStore.EditAll` | Meetings/Meetings/Data/Repositories/MeetingDbRepository.cs:112-122 | same length; each row with the id takes the new begin, end and note and keeps its id; every other row is unchanged |
| `MeetingStore.RemoveAll` | Meetings/Meetings/Data/Repositories/MeetingDbRepository.cs:98-105 | a row stays exactly when it was there and has another id; never longer than before |
| `MeetingStore.RemoveAllAppend` | Meetings/Meetings/Data/Repositories/MeetingDbRepository.cs:98-105 | deletion distributes over concatenation, so the remaining rows keep their order |
| `MeetingStore.RemoveAllAbsent` | Meetings/Meetings/Data/Repositories/MeetingDbRepository.cs:98-105 | deleting an id that no row has leaves the rows unchanged |
| `MeetingStore.RemoveAllUnique` | Meetings/Meetings/Data/Repositories/MeetingDbRepository.cs:98-105 | deletion keeps ids unique |
| `MeetingStore.RemoveAllCount` | Meetings/Meetings/Data/Repositories/MeetingDbRepository.cs:98-105 | with unique ids, deleting a present id removes exactly one row |
| `MeetingStore.RemoveFirst` | Meetings/Meetings/Logic/Schedule/Schedule.cs:54 | with no match the list is unchanged; otherwise it is one shorter and loses exactly one copy of the first match |
| `MeetingStore.RemoveFirstIsRemoveAll` | Meetings/Meetings/Logic/Schedule/Schedule.cs:52-54 | with unique ids, dropping the first match drops every row with the id |
| `MeetingStore.Repository.constructor` | Meetings/Meetings/Data/Repositories/MeetingDbRepository.cs:24-27 | the store starts as an empty table whose identity column starts at 1 |
| `MeetingStore.Repository.FindAll` | Meetings/Meetings/Data/Repositories/MeetingDbRepository.cs:33-56 | every row is read back with its stored id, so each returned meeting is persisted; while the store is valid no two share an id |
| `MeetingStore.Repository.Find` | Meetings/Meetings/Data/Repositories/MeetingDbRepository.cs:63-76 | while the store is valid, the scan's answer is the first row with the id |
| `MeetingStore.Repository.Count` | Meetings/Meetings/Data/Repositories/MeetingDbRepository.cs:128-132 | the count is the length of the full scan |
| `MeetingStore.Repository.Add` | Meetings/Meetings/Data/Repositories/MeetingDbRepository.cs:82-92 | the row is appended with the next identity value instead of its own id; the identity advances; ids stay unique |
| `MeetingStore.Repository.Edit` | Meetings/Meetings/Data/Repositories/MeetingDbRepository.cs:112-122 | the rows become `EditAll` of the old rows; the identity is unchanged; ids stay unique |
| `MeetingStore.Repository.Remove` | Meetings/Meetings/Data/Repositories/MeetingDbRepository.cs:98-105 | the rows become `RemoveAll` of the old rows; the identity is unchanged; ids stay unique |
| `ScheduleEngine.Intersects` | Meetings/Meetings/Logic/Schedule/Schedule.cs:77 | the test as written; every meeting it flags for a candidate of positive length overlaps the candidate |
| `ScheduleEngine.Admissible` | Meetings/Meetings/Logic/Schedule/Schedule.cs:80 | an accepted candidate begins no earlier than `now` and before its end, and overlaps only stored meetings it strictly encloses |
| `ScheduleEngine.IntersectsCharacterised` | Meetings/Meetings/Logic/Schedule/Schedule.cs:77 | for a candidate of positive length, the test flags exactly the overlapping meetings that the candidate does not strictly enclose |
| `ScheduleEngine.AdjacentNeverIntersects` | Meetings/Meetings/Logic/Schedule/Schedule.cs:77 | a candidate that begins where a meeting ends, or ends where it begins, is not flagged |
| `ScheduleEngine.EnclosingNotFlagged` | Meetings/Meetings/Logic/Schedule/Schedule.cs:77 | a candidate that strictly encloses a meeting overlaps it and still is not flagged |
| `ScheduleEngine.SameIntervalIntersects` | Meetings/Meetings/Logic/Schedule/Schedule.cs:52-56 | a candidate with a stored meeting's own interval is always flagged against it, which is why an edit leaves that meeting out |
| `ScheduleEngine.EditComparisonSet` | Meetings/Meetings/Logic/Schedule/Schedule.cs:52-54 | with unique ids, the edit's comparison set is every stored meeting with another id, and the edited one is never in it |
| `ScheduleEngine.SelfEditIgnoresItself` | Meetings/Meetings/Logic/Schedule/Schedule.cs:52-56 | editing a meeting to its own interval is judged only against the meetings with other ids |
| `ScheduleEngine.EditAllWellFormed` | Meetings/Meetings/Logic/Schedule/Schedule.cs:56-58 | an edit with a validated meeting keeps every row of positive length with its note before its begin |
| `ScheduleEngine.NotificationKeepsWellFormed` | Meetings/Meetings/Logic/Schedule/Schedule.cs:92-94 | adding a note before the begin keeps every row well-formed |
| `ScheduleEngine.NotificationFinds` | Meetings/Meetings/Logic/Schedule/Schedule.cs:94 | after the notification edit, the meeting with the id has the same begin and end and the new note |
| `ScheduleEngine.Schedule.constructor` | Meetings/Meetings/Logic/Schedule/Schedule.cs:18 | the schedule works on the store it is given |
| `ScheduleEngine.Schedule.FindAll` | Meetings/Meetings/Logic/Schedule/Schedule.cs:158-161 | the stored meetings, each persisted, no two with the same id |
| `ScheduleEngine.Schedule.Find` | Meetings/Meetings/Logic/Schedule/Schedule.cs:149-152 | a found meeting is stored and has the id; nothing is found exactly when no stored meeting has it |
| `ScheduleEngine.Schedule.Count` | Meetings/Meetings/Logic/Schedule/Schedule.cs:167-170 | the count is the length of `FindAll` |
| `ScheduleEngine.Schedule.Validate` | Meetings/Meetings/Logic/Schedule/Schedule.cs:72-81 | true exactly when no meeting of the set is flagged, the begin is not before `now`, the begin is before the end, and a note if present is before the begin |
| `ScheduleEngine.Schedule.Add` | Meetings/Meetings/Logic/Schedule/Schedule.cs:30-41 | succeeds exactly when the new meeting validates against all stored meetings; then exactly one meeting with the next id and the given fields is appended, `Count` grows by one and `Find` returns it; otherwise a validation error and nothing changes |
| `ScheduleEngine.Schedule.Edit` | Meetings/Meetings/Logic/Schedule/Schedule.cs:50-64 | succeeds exactly when the new fields validate against the stored meetings minus the first one with the id; then the rows with the id take the new fields and nothing else changes; an unknown id changes nothing; a failure changes nothing |
| `ScheduleEngine.Schedule.AddNotification` | Meetings/Meetings/Logic/Schedule/Schedule.cs:88-97 | unknown id: null-reference failure; a meeting that has a note: already-notified failure; otherwise success exactly when the time is before the begin and the begin is after `now`, with no conflict check; on success only that meeting's note changes |
| `ScheduleEngine.Schedule.Remove` | Meetings/Meetings/Logic/Schedule/Schedule.cs:103-107 | fails with not-found and changes nothing exactly when no meeting has the id; otherwise deletes the rows with the id, after which `Find` finds nothing and `Count` is one less |
| `ScheduleEngine.Schedule.Update` | Meetings/Meetings/Logic/Schedule/Schedule.cs:113-119 | the events are one notifier pass over `FindAll` |
| `MeetingNotifier.TickEvents` | Meetings/Meetings/Logic/Updater/MeetingUpdater.cs:52-63 | one meeting raises at most three events per pass |
| `MeetingNotifier.TickEventsExact` | Meetings/Meetings/Logic/Updater/MeetingUpdater.cs:52-63 | the event of a kind is raised exactly when the note, begin or end (for Notified, Started, Finished) equals `now`; no note, no Notified |
| `MeetingNotifier.TickEventsSound` | Meetings/Meetings/Logic/Updater/MeetingUpdater.cs:52-63 | every event carries the meeting's id; Notified and Started report the begin, Finished the end |
| `MeetingNotifier.TickEventsOrdered` | Meetings/Meetings/Logic/Updater/MeetingUpdater.cs:52-63 | one meeting's events come in the order Notified, Started, Finished, so each kind comes at most once |
| `MeetingNotifier.TickEventsOnce` | Meetings/Meetings/Logic/Updater/MeetingUpdater.cs:52-63 | no event occurs twice among one meeting's events of one pass |
| `MeetingNotifier.ScanEvents` | Meetings/Meetings/Logic/Updater/MeetingUpdater.cs:50-64 | a pass raises at most three events per meeting |
| `MeetingNotifier.ScanEventsAppend` | Meetings/Meetings/Logic/Updater/MeetingUpdater.cs:50 | the meetings are visited in input order: a pass over `a + b` is the pass over `a` followed by the pass over `b` |
| `MeetingNotifier.ScanEventsMembers` | Meetings/Meetings/Logic/Updater/MeetingUpdater.cs:50-64 | an event is in the pass exactly when some meeting of the list raises it |
| `MeetingNotifier.ScanEventsSound` | Meetings/Meetings/Logic/Updater/MeetingUpdater.cs:50-64 | every event of a pass has a meeting of the list with its id, with its reported time, and with a trigger equal to `now` |
| `MeetingNotifier.ScanEventsComplete` | Meetings/Meetings/Logic/Updater/MeetingUpdater.cs:50-64 | every note, begin or end equal to `now` raises its event in the pass |
| `MeetingNotifier.ScanEventsExact` | Meetings/Meetings/Logic/Updater/MeetingUpdater.cs:50-64 | with unique ids, a meeting's event is in the pass if and only if its trigger equals `now` |
| `MeetingNotifier.PollRunCount` | Meetings/Meetings/Logic/Updater/MeetingUpdater.cs:52-63 | over any run of passes, each event of a meeting is raised as many times as passes fall on its trigger instant, and never without a trigger |
| `MeetingNotifier.SameSecondTwice` | Meetings/Meetings/Logic/Updater/MeetingUpdater.cs:56-59 | two passes within one second raise a meeting's start twice |
| `MeetingNotifier.StrictlyIncreasingOnce` | Meetings/Meetings/Logic/Updater/MeetingUpdater.cs:52-63 | in a run of strictly increasing instants each instant occurs at most once |
| `MeetingNotifier.PollRunOnce` | Meetings/Meetings/Logic/Updater/MeetingUpdater.cs:52-63 | over passes at strictly increasing instants, each event of a meeting is raised once if some pass falls on its instant and never otherwise |
| `MeetingNotifier.MeetingUpdater.constructor` | Meetings/Meetings/Logic/Updater/MeetingUpdater.cs:34-39 | all three event kinds are routed to the one given handler |
| `MeetingNotifier.MeetingUpdater.Update` | Meetings/Meetings/Logic/Updater/MeetingUpdater.cs:48-65 | the loop fires exactly the events of `ScanEvents`, in that order; the meeting list is a value and is only read |

## Left out

- The console menu, the parsing of user-typed dates and the singleton
  controller (Meetings/Meetings/View/Interface.cs). They are interactive I/O.
- The one-second `System.Threading.Timer` that drives the notifier
  (Meetings/Meetings/View/Interface.cs:74). It is concurrency. A run of
  passes is modelled only as a sequence of instants (`PollRun`).
- The SQL Server connection and commands. The table is the store's
  `records` sequence, and storage failures are not modelled. The schedule
  gets its store as a constructor argument, because the parameterless
  repository constructor called at Schedule.cs:18 does not exist.
- The store starts empty. Rows put into the table other than through
  `Add` are not modelled, so the store's ids are always unique.
- `ConsolePrint` and `FilePrint` (Schedule.cs:127-142) and the two printer
  classes. They format dates for output in a culture-dependent way.
- The factory classes and the observer, updater and printer interfaces.
  They are declarations or one-line wrappers over the two `Meeting`
  constructors, which are modelled.
- `DateTime.Now` and the sub-second part of instants. The clock is the
  parameter `now`, in whole seconds. The source's `begin < DateTime.Now`
  compares at tick resolution; the model compares seconds.
- The texts of exceptions and event messages. Failures are `Outcome` values
  without their text. Events are `(kind, id, time)` values that `Update`
  returns in firing order, and `HandlerFor` tells which handler receives
  each kind.
- 32-bit integer ranges. Ids and the identity counter are unbounded, so
  identity overflow is not modelled.
- A notifier that fires when an instant is crossed rather than hit, and the
  serialisation of concurrent schedule operations. Neither is in the code.
- `MeetingUpdater.Update` reads `DateTime.Now` afresh for each of its three
  comparisons per meeting (MeetingUpdater.cs:52, 56, 60), so one pass can
  straddle a second boundary. The model reads the clock once per pass, as
  the single parameter `now`; `ScanEventsExact` and `ScanEventsComplete`
  rely on that.
- Row order. `SELECT * FROM Meetings` (MeetingDbRepository.cs:40) has no
  `ORDER BY`, so the database does not promise any order. The model assumes
  rows come back in insertion order; the order of events across meetings in
  one pass, and which row `FindFirst` and `FindLast` meet first, depend on it.
- The observer wiring. `Schedule.Update` takes an `Observer.IObserver<Meeting>`
  (Schedule.cs:113), but `MeetingUpdater` implements `IUpdater<Meeting>`
  (MeetingUpdater.cs:10), and Interface.cs:27 creates a `MeetingObserver`,
  which is not in the code. The model passes `Schedule.Update` a
  `MeetingUpdater` directly.
