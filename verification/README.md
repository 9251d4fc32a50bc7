# Verification of the timeslot booking engine

A Dafny model of the doodle service's store and of the handlers above it, with proofs. Users
offer windows of free time, the service cuts them into timeslots, anybody books a timeslot as a
meeting, and the owner reads the slots and the calendar back. What matters is that concurrent
callers cannot corrupt this: the proofs cover every interleaving of any number of calls.

Check the project with `dafny verify dfyconfig.toml`.

## Layout

| file | contents |
|---|---|
| `GoErrors.dfy` | Go error trees, `errors.As` and `errors.Is`, the mapping of Postgres errors |
| `Schema.dfy` | tables, constraints, the meaning of each SQL statement including the cascade |
| `Slicing.dfy` | cutting windows into slots |
| `Transactions.dfy` | each store operation as a program of statements run alone: the serial specification |
| `Protocol.dfy` | any number of calls interleaved statement by statement, and the invariant |
| `Serializability.dfy` | the invariant over all runs, and the simulation by a serial run |
| `Progress.dfy` | deadlock freedom, termination, completion, real-time order |
| `Provenance.dfy` | which successful call every committed row comes from |
| `Reachability.dfy` | the converse of serializability: every serial history happens |
| `Snapshots.dfy` | guards that read a snapshot taken during the run |
| `Contention.dfy` | bookings and deletes competing for one slot under truthful guards |
| `Reordering.dfy` | an update that missed a booking can be put before it in a serial history |
| `RealTime.dfy` | when calls begin and end, and histories that respect it |
| `SomeOrder.dfy` | serializability in some order, and in real time order, when guards read snapshots |
| `Requests.dfy` | what rows the arguments of the calls ask for, and that all of it can happen |
| `Freezing.dfy` | for which calls bookings are safe and all runs serializable |
| `Guarantees.dfy` | frozen bookings, races for one slot |
| `Clashes.dfy` | when slots and meetings of one user can overlap |
| `ClashingRun.dfy` | a run in which two meetings of one user do overlap |
| `Concurrency.dfy` | what waits for what, and what goes on beside a pending booking |
| `Diagnosis.dfy` | what the error of a transaction lets its caller find |
| `Readback.dfy` | what each operation changes in the lists read back |
| `Store.dfy` | the classes `Queries` and `Store` with the loops of the source |
| `Handlers.dfy` | validation before the store and statuses after it |
| `Listing.dfy` | the two list queries as relational pipelines |
| `Username.dfy` | the user name expression |

## How the system is modelled

- A database is one map per table. A transactional call (`BookMeeting`, `CreateAvailability`) is a
  program of INSERTs followed by COMMIT. Run alone it is a fold of its statements
  (`Transactions.InTransaction`); the loops of the class methods are proved equal to that fold.
- In a concurrent run a call in flight has a program counter and its own uncommitted rows. An
  event is the next statement of a call, a commit, or a failure with an arbitrary error. A state is
  reachable when a list of events that are each enabled leads to it.
- The class methods run one call at a time, with a private copy of the tables that COMMIT
  publishes. Concurrency is the subject of `Protocol.dfy`, where a commit merges the call's own rows
  into whatever is committed by then; both execute the same programs.
- Failures: every statement, BEGIN and COMMIT may fail with any driver error.

Assumptions about Postgres, which the source relies on but does not contain:

- A statement reads the committed tables plus its transaction's own rows (Read Committed,
  internal/storage/store.go:39).
- An insert into `meetings` waits while another transaction holds an uncommitted meeting with the
  same `meeting_id` or the same `timeslot_id`. A DELETE of a timeslot waits while an uncommitted
  meeting references it; an UPDATE of its times does not wait.
- A failed COMMIT commits nothing.
- The guarded DELETE and UPDATE may evaluate `NOT EXISTS` on any snapshot: Read Committed does not
  promise that a DELETE which waited for a booking sees it. Three kinds of guards are told apart:
  arbitrary ones; honest ones (`Snapshots.Honest`), which know the bookings from before the run and
  make none up, and which are exactly those that read a snapshot taken during the run
  (`Snapshots.SnapshotsAreHonest`); and truthful ones (`Protocol.Atomic`), which are right about
  their own slot at their own step. The constraints, the progress and the race of bookings hold
  under arbitrary guards.
- A run equals the serial run of its calls in the order in which they ended if and only if its
  guards are truthful. In some other order it may still be serializable: an UPDATE that missed a
  booking counts as done just before it. With honest guards, some serial order explains the run if
  and only if no step deletes a booked slot (`SomeOrder.SerializableInSomeOrder`), and if every guard
  reads a snapshot taken during its own call, then in real time order
  (`SomeOrder.SerializableInRealTime`).
  `Guarantees.StaleGuardLosesMeeting` is a run in which a delete that waited for a booking removes
  it, and `Guarantees.StaleGuardIsNotSerializable` shows that no order of the two calls explains it.
- Booked slots stay frozen over a run if and only if no step writes through a guard that missed a
  booking. `Freezing` says for which calls that, or a delete of a booked slot, can happen at all.
- `uuid.New()` never repeats: timeslot ids are distinct and unused wherever offers run
  concurrently. Meeting ids need not be: a repeated one is refused with ErrSlotTaken, which
  `Transactions.BookingOutcome` states, and only the exact outcomes assume new ones.

Where the documentation says more than the code does, the model follows the code:

- The repository's README.md:58 reads "Avoid clashing meetings, ie. data races". Of races for one
  slot this is true (`Guarantees.AtMostOneWins`). Of meetings at overlapping times it is not:
  nothing in the schema compares the periods of two slots. `ClashingRun.OverlappingOffersClash` is
  a run in which two such meetings are booked, and `Clashes.CalendarApartExactly` says for which
  calls that cannot happen.
- internal/storage/store.go:20-22 describes ErrSlotTaken as the outcome of losing a slot; any unique
  violation of the meeting insert is reported that way.
- `UpdateTimeslot` does not relate the new period to `duration_mins`; neither does the model.

## Model

| member | source | states |
|---|---|---|
| Serializability.Serializable | internal/storage/store.go:38-114 | for every interleaving of any number of bookings, offers, updates, deletes and user creations, with any failures, the committed tables and every returned outcome are those of running the calls one at a time in the order in which they ended, if and only if every guard was right about its own slot |
| SomeOrder.SerializableInSomeOrder | internal/storage/query.sql.gen.go:117-123 | with guards that read snapshots, as Read Committed gives them, some serial history, in which only calls the run made to fail fail and with the same error, explains the tables and all outcomes of a run if and only if no step deletes a booked slot |
| SomeOrder.SerializableInRealTime | internal/storage/store.go:38-49 | if every guard reads a snapshot taken during its own call, the same holds of serial histories that put no call after one that began only when it had ended |
| Reordering.ExplainsInserted | internal/storage/query.sql.gen.go:274-281 | an update that missed a booking can be put into the serial history just before that booking: it and all later calls return the same, and the tables end up the same |
| Freezing.AlwaysSerializableExactly | internal/storage/sql/queries/query.sql:33-48 | every run of the given calls with honest guards is serializable in that sense if and only if no slot that can be there, not booked before, is wanted both by a booking and by a delete |
| Snapshots.SnapshotsAreHonest | internal/storage/store.go:39 | guards are honest if and only if each agrees about its slot with the tables at some point of the run so far; once booked, a slot stays booked for as long as it is there |
| Reachability.EveryHistoryHappens | internal/storage/store.go:38-114 | the converse: any calls in any order, each once and made to fail or not, are exactly what some interleaved run with truthful guards completes, with those tables and outcomes |
| Provenance.RowsAreAccounted | internal/storage/store.go:62-114 | in every reachable state, under any guards, each meeting and slot was there at the start or comes from a booking or an offer that reported success, the slot possibly as a successful update has made it |
| Provenance.InvitesAreAccounted | internal/storage/store.go:103-109 | in every reachable state, under any guards, the participants of a meeting are those it had at the start or exactly the invitations of the booking that made it |
| Serializability.ReachableInv | internal/storage/sql/migrations/000001_init_schema.up.sql:10-41 | in every reachable state, under arbitrary guard snapshots and failures, all keys, foreign keys, the UNIQUE on timeslot_id and the CHECKs hold, and every call in flight is consistent with the tables |
| Serializability.StepKeepsInv | internal/storage/query.sql.gen.go:117-133 | one statement, commit or failure keeps that invariant, including a cascade fired by a stale guard |
| Protocol.PrefixReplays | internal/storage/store.go:92-111 | what a call has pending is what replaying its statements so far on the tables as committed now gives, however much the tables changed since |
| Serializability.EndingStepIsSerial | internal/storage/store.go:45-48 | the step that ends a call returns what the whole operation run alone at that moment returns if and only if its guard was right, and then changes the tables in the same way |
| Serializability.CommitLeavesOthers | internal/storage/sql/migrations/000001_init_schema.up.sql:26-30 | a commit cannot invalidate the pending rows of any other call |
| Progress.SomeCallProceeds | internal/storage/store.go:92-112 | no deadlock: while a call is unfinished, some call can take a step that is not a failure |
| Progress.HoldersNeverWait | internal/storage/store.go:95-109 | a call that waits holds no pending meeting, and every call it waits for holds one and is not blocked itself |
| Concurrency.OthersNeverWait | internal/storage/sql/queries/query.sql:42-48 | updates, offers and user creations can always run their next statement or commit, whatever other calls have pending |
| Concurrency.BookingWaitsExactly | internal/storage/sql/migrations/000001_init_schema.up.sql:26-30 | a booking can run its insert if and only if no other call has an uncommitted meeting with its id or on its slot, and afterwards never waits |
| Concurrency.DeleteWaitsExactly | internal/storage/sql/migrations/000001_init_schema.up.sql:29 | a delete can run if and only if no other call has an uncommitted meeting on its slot |
| Concurrency.UpdatePassesBooking | internal/storage/sql/queries/query.sql:42-48 | for every free slot, an update can run between the insert and the commit of a booking of it: it returns one row, both succeed, and the booked slot carries the new times |
| Concurrency.AnyCallMayFail | internal/storage/store.go:38-49 | an unfinished call may fail at any time with any error, and then leaves nothing behind |
| Progress.EventsAreBounded | internal/storage/store.go:62-112 | in any run a booking takes at most its insert, one statement per attendee and its commit, an offer one per row and its commit, anything else one |
| Progress.RunsAreBounded | internal/storage/store.go:62-112 | no run is longer than the statements and commits of its calls |
| Progress.EveryRunCanFinish | internal/storage/store.go:38-49 | from every reachable state all calls can finish without further failures |
| Progress.SerialOrderRespectsRealTime | internal/storage/store.go:38-49 | a call that ended while another was unfinished precedes it in the serial order |
| Guarantees.BookedIsFrozen | internal/storage/query.sql.gen.go:117-123 | over a whole run, committed meetings, their slots with start, end and duration, and their attendees are the same in every later state if and only if no step writes through a guard that missed a booking |
| Freezing.BookingsAreSafeExactly | internal/storage/sql/queries/query.sql:33-48 | no run of the given calls with honest guards undoes a booking if and only if no slot, not booked before, can be there with a row that a booking wants and another call would delete or change |
| Guarantees.TruthfulGuardsFreeze | internal/storage/query.sql.gen.go:274-281 | with truthful guards they are always the same |
| Guarantees.StepFreezesExactly | internal/storage/sql/queries/query.sql:33-48 | a step preserves all committed meetings and their slots if and only if it does not delete, or really change, a booked slot its guard did not see |
| Guarantees.StaleGuardLosesMeeting | internal/storage/query.sql.gen.go:117-123 | a concrete run in which a delete with a stale guard removes a meeting that had been committed, while both calls report success |
| Guarantees.StaleGuardIsNotSerializable | internal/storage/query.sql.gen.go:117-123 | no serial history at all explains the outcomes of that run |
| Guarantees.ExactlyOneWins | internal/storage/store.go:20-23 | of any number of bookings of one free slot, among any other calls that do not delete it and under any guards, exactly one succeeds in every complete run in which some booking was not made to fail, and the others not made to fail get ErrSlotTaken |
| Guarantees.AtMostOneWins | internal/storage/sql/migrations/000001_init_schema.up.sql:26-29 | over a whole run, whatever failed, whatever the guards saw and even if the slot was deleted, at most one booking of a slot has succeeded |
| Contention.ExactlyOneTakes | internal/storage/query.sql.gen.go:117-123 | with truthful guards, of the bookings and deletes of one free slot exactly one succeeds in every complete run in which some were not made to fail, and the others not made to fail are told that the slot is taken, that it is gone, or that no row matched |
| Contention.AtMostOneTakes | internal/storage/query.sql.gen.go:117-123 | over any run with truthful guards, of all bookings and deletes of a slot at most one succeeds |
| Guarantees.RollbackReleasesSlot | internal/storage/store.go:43-47 | when the holder of a slot rolls back, a booking that was waiting for it is enabled and takes the slot |
| Clashes.CalendarApartExactly | internal/storage/sql/migrations/000001_init_schema.up.sql:10-30 | with honest guards, no reachable state has two overlapping meetings on the user's calendar if and only if no two rows of the user overlap that the tables, offers and updates allow for and that are booked or wanted by bookings; truthful guards make no difference, nor do arbitrary ones if the user starts without slots |
| Clashes.SlotsApartExactly | internal/storage/sql/migrations/000001_init_schema.up.sql:10-21 | likewise no reachable state has two overlapping slots of the user if and only if no two rows of the user that the tables, offers and updates allow for overlap |
| Requests.RequestedBookingsHappen | internal/storage/store.go:62-114 | any two rows of a user that are asked for and wanted by bookings can come to be there and booked together, by a run with truthful guards |
| ClashingRun.OverlappingOffersClash | internal/storage/store.go:66-81 | a concrete run of two offers and two bookings that all succeed, after which two meetings on one calendar overlap |
| Clashes.MeetingsDoNotClash | internal/storage/store.go:66-81 | in a given run under any guards: if the windows of the user's successful offers are pairwise disjoint and avoid the user's older slots, which do not overlap either, and no slot of the user was successfully updated, no two meetings on that user's calendar overlap |
| Clashes.SlotsDoNotOverlap | internal/storage/store.go:66-81 | under the same condition no two slots of the user overlap |
| Clashes.SlotSpansItsDuration | internal/storage/store.go:68-75 | a new slot that no successful update has touched lies in a window of the successful offer that created it and spans exactly its duration |
| Transactions.TransactionIsAtomic | internal/storage/store.go:36-49 | with a fault at any position, the call succeeds exactly when nothing fails and every statement is accepted, and otherwise the tables are those from before |
| Transactions.BookingOutcome | internal/storage/store.go:92-114 | a booking alone: which of ErrSlotTaken, foreign-key error and success occurs, and that success adds one meeting and the set of its attendees |
| Transactions.BookingErrorsExactly | internal/storage/store.go:95-101 | with a new meeting id and valid tables, ErrSlotTaken if and only if the slot is booked, a foreign-key error if and only if it is absent |
| Transactions.OnlyTheSetOfAttendeesMatters | internal/storage/sql/queries/query.sql:55-58 | bookings with the same set of attendees have the same effect, whatever order and repetitions |
| Diagnosis.ErrorTells | internal/storage/store.go:76-106 | for every program, faults and first failing statement: a caller finds in the error exactly ErrSlotTaken for a unique violation of a meeting insert, the sentinel of any other mapped code, and otherwise what the raw error carries |
| Diagnosis.EveryErrorHasAPlace | internal/storage/store.go:38-49 | every failure is one of BEGIN, of a first failing statement, or of COMMIT |
| Diagnosis.FramingErrorTells | internal/storage/store.go:39-49 | an error of BEGIN or COMMIT is returned as it is |
| Diagnosis.BookingReportsTaken | internal/storage/store.go:95-111 | exactly which failed bookings report ErrSlotTaken, for every failure at BEGIN, the meeting insert, an attendee or COMMIT; an attendee's failure is never mapped to it |
| Diagnosis.OfferErrorsExactly | internal/storage/store.go:70-78 | with a duration in range and new ids an offer fails with the foreign-key error if and only if the user is absent and some window holds a slot; with the user present it fails, with the unique error, if and only if its ids are not new and distinct |
| Diagnosis.OutOfRangeOfferExactly | internal/storage/store.go:64-78 | out of range an offer fails with the CHECK error if and only if some window is not shorter than the slot length as wrapped to int64, and otherwise succeeds with no slot |
| Transactions.OfferOutcome | internal/storage/store.go:62-88 | an offer alone succeeds if and only if all its rows can be inserted, and then the slots grow by exactly those rows |
| Transactions.SerialKeepsValid | internal/storage/sql/migrations/000001_init_schema.up.sql:10-41 | every operation run alone keeps the schema constraints |
| Schema.InsertSlotExactly | internal/storage/sql/migrations/000001_init_schema.up.sql:10-20 | a slot is accepted if and only if its id is new and the schema holds with it, and the error says which of CHECK, key and user it breaks first |
| Schema.InsertMeetingExactly | internal/storage/sql/migrations/000001_init_schema.up.sql:27-34 | a meeting is accepted if and only if its id is new and the schema holds with it, and the error is a unique violation if and only if the id or the slot is taken |
| Schema.InsertParticipantExactly | internal/storage/sql/migrations/000001_init_schema.up.sql:37-41 | a participant is accepted if and only if the schema holds with it, and repeating one changes nothing |
| Schema.UpdateExactly | internal/storage/sql/queries/query.sql:42-48 | row count, CHECK violation and new row of the update, for any guard, with the bounds in numbers |
| Schema.DeleteExactly | internal/storage/sql/queries/query.sql:34-39 | row count of the delete, and exactly what remains of each table, for any guard |
| Schema.ExecuteKeepsValid | internal/storage/sql/migrations/000001_init_schema.up.sql:10-41 | an accepted INSERT keeps the schema constraints |
| Schema.CascadeKeepsValid | internal/storage/sql/migrations/000001_init_schema.up.sql:29 | deleting a slot with its cascade keeps the constraints and unbooks exactly that slot |
| Schema.GuardedDeleteRemovesOnlyTheSlot | internal/storage/sql/queries/query.sql:33-39 | deleting an unbooked slot removes no meeting and no participant |
| Store.Store.BookMeeting | internal/storage/store.go:92-114 | the booking loop with its error mapping is the transaction of its program, for every placement of faults |
| Store.Store.InsertSlices | internal/storage/store.go:66-83 | the nested loops insert exactly the planned rows in order, report the first failure, and terminate for every int32 duration |
| Store.Store.CreateAvailability | internal/storage/store.go:62-88 | the whole call is the transaction of its program and returns exactly the rows created, none on error |
| Store.Queries.CreateMeeting | internal/storage/query.sql.gen.go:45-63 | the insert's new tables and error, by constraint |
| Store.Queries.CreateTimeslot | internal/storage/query.sql.gen.go:79-97 | the insert's new tables and error, by constraint |
| Store.Queries.AddMeetingParticipant | internal/storage/query.sql.gen.go:26-29 | the insert ignores a row already there and needs its meeting |
| Store.Queries.DeleteTimeslot | internal/storage/query.sql.gen.go:127-133 | the guarded delete with its row count; no meeting and no participant is removed |
| Store.Queries.UpdateTimeslot | internal/storage/query.sql.gen.go:291-302 | the guarded update with its row count or CHECK violation |
| Store.Queries.CreateUser | internal/storage/query.sql.gen.go:110-115 | the insert's new table, or the unique violation |
| Slicing.WindowRowsAt | internal/storage/store.go:68-80 | slot i of a window is [start + i*len, start + (i+1)*len), all fit, and the rest is shorter than one slot |
| Slicing.WindowCount | internal/storage/store.go:68-80 | a window yields floor((end - start)/len) slots, none if it ends before it starts |
| Slicing.SlicingComposes | internal/storage/store.go:68-80 | cutting a window at a slot boundary and slicing both parts gives the same slots |
| Slicing.LongerWindowAppends | internal/storage/store.go:68-80 | a later end only appends slots |
| Slicing.PlannedRowAt | internal/storage/store.go:67-80 | slot i of window n stands in the plan after all slots of the windows before, and runs from start + i times the duration in nanoseconds |
| Slicing.PlanLength | internal/storage/store.go:67-80 | and the plan holds no other rows |
| Slicing.WrapsAround | internal/storage/store.go:64 | the slot length is the one int64 that differs from the product by a multiple of 2^64 |
| Slicing.OverlapMeansSharedInstant | internal/storage/store.go:68-80 | periods overlap if and only if they share an instant |
| Slicing.PlannedRow | internal/storage/store.go:64-75 | every planned row lies in its window, spans its duration, and satisfies the CHECKs exactly if the duration is in range |
| Slicing.PlannedRowsDisjoint | internal/storage/store.go:67-80 | slots cut from disjoint windows do not overlap |
| Handlers.OutOfRangeCreatesNothing | internal/storage/store.go:64-78 | with a duration out of range the call changes no table, and fails as soon as it attempts a row |
| Handlers.UpdateIsRefusedExactly | internal/timeslots/http_handlers.go:216-223 | a request to change a slot is refused with 400 if and only if the row it asks for breaks a CHECK |
| Handlers.RefusedUpdateBreaksCheck | internal/storage/sql/migrations/000001_init_schema.up.sql:17-19 | if and only if the statement would report a CHECK violation on a free slot |
| Handlers.OfferIsRefusedExactly | internal/timeslots/http_handlers.go:83-99 | an offer is refused with 400 if and only if it has no window, or one that as a row with its duration breaks a CHECK |
| Handlers.AcceptedNamesExactly | internal/onboarding/http_handlers.go:57-64 | a name is accepted if and only if it has four characters or more, starts and ends with an ASCII letter or digit, and otherwise holds only those and single separators, by their character codes |
| Handlers.AcceptedOfferNeverBreaksCheck | internal/timeslots/http_handlers.go:83-99 | no statement of an accepted request can violate a CHECK, on any tables |
| Handlers.AcceptedUpdateNeverBreaksCheck | internal/timeslots/http_handlers.go:216-223 | an accepted update reports a row count, never a CHECK violation |
| Handlers.AcceptedOfferSucceedsExactly | internal/timeslots/http_handlers.go:83-101 | without faults an accepted request succeeds if and only if the user exists or no window holds a slot |
| Handlers.NoSlotsExactly | internal/storage/store.go:58-59 | nothing is planned if and only if every window is shorter than one slot |
| Handlers.HTTPHandler.CreateTimeslot | internal/timeslots/http_handlers.go:70-117 | status 400 exactly on invalid input and without touching the store, otherwise 201 with the ids of the rows created, or 500 |
| Handlers.HTTPHandler.UpdateTimeslot | internal/timeslots/http_handlers.go:204-242 | without a fault 204 exactly for an existing unbooked slot and 409 otherwise, with the new row |
| Handlers.HTTPHandler.DeleteTimeslot | internal/timeslots/http_handlers.go:254-273 | without a fault 204 exactly for an existing unbooked slot and 409 otherwise, removing nothing else |
| Handlers.HTTPHandler.CreateMeeting | internal/timeslots/http_handlers.go:298-336 | without faults 409 exactly if the slot is booked, 500 if it is absent, 201 otherwise; a fault of the meeting insert gives 409 if it is a unique violation or carries ErrSlotTaken unmapped and 500 otherwise, a fault of an attendee 409 only in the second case; in all cases the status and the tables are those of the transaction's error; unless 201, no table changes |
| Handlers.HTTPHandler.CreateUser | internal/onboarding/http_handlers.go:49-82 | 400 exactly for a name that is too short or does not match, and otherwise whether the user was inserted |
| Listing.CalendarIsCorrect | internal/storage/query.sql.gen.go:220-236 | for every physical order of the tables, the pipeline of joins, grouping, filtered aggregate, coalesce and sort answers one row per meeting on the user's slots with exactly its attendees, by start time |
| Listing.GroupingUndoesLeftJoin | internal/storage/sql/queries/query.sql:69-77 | grouping by the four keys gives back one row per joined row with that meeting's emails, an empty list when it has none |
| Listing.InnerJoinIsLookup | internal/storage/sql/queries/query.sql:73-76 | the inner join restricted to the user is the set of meetings on that user's slots, each once |
| Listing.AllottedIsCorrect | internal/storage/query.sql.gen.go:155-170 | the query lists exactly the user's slots with max(date_start, now) <= start < date_end, each once, by start time, flagged as booked exactly if a meeting has the slot |
| Listing.AdjacentWindowsConcatenate | internal/storage/sql/queries/query.sql:26-31 | answers for [a,b) and [b,c) concatenate to an answer for [a,c) |
| Listing.AnswersAreUnique | internal/storage/sql/queries/query.sql:31 | two answers to one query hold the same rows |
| Listing.FlagMeansCalendarRow | internal/storage/query.sql.gen.go:161-163 | a slot is flagged as booked if and only if the user's calendar has a row for it |
| Listing.BookingShows | internal/storage/store.go:92-112 | after a booking the owner's calendar has exactly one more row, with the slot's times and the set of attendees, other calendars are unchanged, and exactly that slot's flag changes |
| Readback.RowSays | internal/storage/query.sql.gen.go:155-170 | what a row of the slot list says, written out: owner, start, end and duration of the slot, the asked window, and whether a meeting has it |
| Readback.OfferShows | internal/storage/store.go:66-81 | after a successful offer the owner's answer gains exactly one free row per slot cut from the windows that starts in the asked window, with its id, times and duration; other users' answers stay |
| Readback.UpdateShows | internal/storage/query.sql.gen.go:274-302 | after a successful update the slot's row has exactly the given start, end and duration, and all other rows stay |
| Readback.DeleteShows | internal/storage/query.sql.gen.go:117-133 | after a successful delete the slot's row is gone, and all other rows stay |
| Readback.BookingShowsInSlots | internal/storage/query.sql.gen.go:161-163 | after a successful booking exactly the slot's row changes, from free to booked |
| Readback.CalendarRowsSay | internal/storage/query.sql.gen.go:220-236 | what the rows of the calendar list say, written out: title, times, and exactly the participants, each once; one row per meeting |
| Readback.OthersLeaveCalendars | internal/storage/sql/queries/query.sql:69-77 | no operation but a booking changes a calendar |
| Readback.FrozenStaysOnCalendar | internal/storage/sql/queries/query.sql:69-77 | what is frozen over a run stays on the calendar with title, times and attendees |
| GoErrors.FirstPgIsFirstInPreorder | sdk/storage/postgres/errors.go:30-31 | the driver error found is the first in the depth-first order of the tree |
| GoErrors.IsMeansOccursInTree | internal/timeslots/http_handlers.go:323 | a sentinel is found if and only if it occurs in the tree |
| GoErrors.WrapMapped | sdk/storage/postgres/errors.go:31-38 | wrapping a mapped driver error makes exactly its sentinel findable and removes the driver error |
| GoErrors.WrapOther | sdk/storage/postgres/errors.go:39-43 | wrapping any other error keeps everything findable in it |
| GoErrors.WrapAgain | sdk/storage/postgres/errors.go:26-45 | wrapping is idempotent on an error if and only if its driver error, if any, has a mapped code |
| GoErrors.ClassificationSurvivesWrapping | sdk/storage/postgres/errors.go:47-69 | each predicate on the raw error agrees with its sentinel on the wrapped one if and only if a mapped driver error comes first or the error did not carry that sentinel before |
| Username.UserNameMeansWellFormed | internal/onboarding/http_handlers.go:37 | the expression accepts exactly the names that start and end with an alphanumeric, hold only alphanumerics, spaces, underscores and hyphens, and have no two separators side by side |
| Username.ScanDecides | internal/onboarding/http_handlers.go:61 | a one-pass scan with four states decides the expression |
| Username.NamesSplit | internal/onboarding/http_handlers.go:36-37 | every accepted name is runs of alphanumerics joined by separators |
| Username.JoinsAreNames | internal/onboarding/http_handlers.go:36-37 | every such join is an accepted name |
| Username.SplitsAreUnique | internal/onboarding/http_handlers.go:36-37 | a name splits into runs and separators in one way only |

## Left out

- HTTP transport, JSON, and the parsing of UUIDs and RFC 3339 times: handlers start from parsed requests.
- `GetAllotted` and `GetCalendar` copy the rows of the list queries field by field, and the row scan loops of the two list queries do the same; the queries themselves are modelled.
- `GetTimeslot` and the `created_at` columns: they add nothing to the properties.
- Message texts and log lines; an error is its tree of causes.
- time.Time internals: times are unbounded integers of nanoseconds, without Postgres' rounding to microseconds. The int32 to int64 product of the slot length does wrap.
- Postgres internals (row versions, lock tables, indexes): replaced by the rules listed above.
- A COMMIT whose outcome stays unknown because the connection broke after it took effect.
- Rollback on panic and context cancellation: a cancelled statement is a statement that fails.
- `withTx` takes its body as a closure. The begin, commit and rollback around it are written out in both callers, and the body of `CreateAvailability` is a method of its own.
- A unique violation that waits for another transaction's pending timeslot id: excluded by distinct ids.
- Clashes.CalendarApartExactly: assumes new meeting ids; under arbitrary guards it speaks only of a user who starts without slots, because such a guard may change even a slot booked before the run.
- Clashes.SlotsApartExactly: likewise, under arbitrary guards, only of a user who starts without slots.
- Guarantees.ExactlyOneWins: the slot exists at the start and no call deletes it; `Contention.ExactlyOneTakes` has deletes too, with truthful guards.
- The order of attendees within a row, and of rows with equal start times, follows one nested-loop join; Postgres may join otherwise, and no theorem about the lists promises either order.
- Listing.AdjacentWindowsConcatenate: the order among equal start times is Postgres' choice, so it speaks of every answer to the query rather than of one list.
