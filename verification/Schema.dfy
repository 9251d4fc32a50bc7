/** The tables, the constraints the migration declares on them, and the meaning of the single
    SQL statements (migrations/000001_init_schema.up.sql, queries/query.sql).

    UUIDs are numbers, timestamps are integer nanoseconds, `created_at` is dropped. */
module Schema {
  import opened GoErrors

  type Id = nat

  const MIN_DURATION_MINS := 10
  const MAX_DURATION_MINS := 60

  datatype Slot = Slot(userId: Id, startAt: int, endAt: int, durationMins: int)

  datatype Meeting = Meeting(timeslotId: Id, title: string, description: string, url: string)

  datatype Participant = Participant(meetingId: Id, email: string)

  /** One map per table, keyed by its primary key. */
  datatype Db = Db(
    users: map<Id, string>,
    slots: map<Id, Slot>,
    meetings: map<Id, Meeting>,
    participants: set<Participant>)

  /** min_duration, max_duration and valid_timeslot_period. */
  predicate Checks(row: Slot) {
    MIN_DURATION_MINS <= row.durationMins <= MAX_DURATION_MINS && row.endAt > row.startAt
  }

  function Booked(db: Db): set<Id> {
    set m | m in db.meetings :: db.meetings[m].timeslotId
  }

  /** Everything the schema promises about a committed state. */
  ghost predicate Valid(db: Db) {
    && (forall s :: s in db.slots ==> Checks(db.slots[s]) && db.slots[s].userId in db.users)
    && (forall m :: m in db.meetings ==> db.meetings[m].timeslotId in db.slots)
    && (forall m, n ::
          m in db.meetings && n in db.meetings && db.meetings[m].timeslotId == db.meetings[n].timeslotId ==> m == n)
    && (forall p :: p in db.participants ==> p.meetingId in db.meetings)
  }

  // ---- INSERT ----

  datatype Insert =
    | InsertSlot(slotId: Id, slot: Slot)
    | InsertMeeting(meetingId: Id, meeting: Meeting)
    | InsertParticipant(participant: Participant)

  datatype Result = Ok(db: Db) | Err(err: Error)

  /** CHECKs are evaluated on the row, keys when it enters the indexes, foreign keys at the end
      of the statement. Only the participants insert has ON CONFLICT DO NOTHING. */
  function Execute(db: Db, st: Insert): Result {
    match st
    case InsertSlot(id, row) =>
      if !Checks(row) then Err(PgError(CheckViolation))
      else if id in db.slots then Err(PgError(UniqueViolation))
      else if row.userId !in db.users then Err(PgError(ForeignKeyViolation))
      else Ok(db.(slots := db.slots[id := row]))
    case InsertMeeting(id, row) =>
      if id in db.meetings || row.timeslotId in Booked(db) then Err(PgError(UniqueViolation))
      else if row.timeslotId !in db.slots then Err(PgError(ForeignKeyViolation))
      else Ok(db.(meetings := db.meetings[id := row]))
    case InsertParticipant(row) =>
      if row in db.participants then Ok(db)
      else if row.meetingId !in db.meetings then Err(PgError(ForeignKeyViolation))
      else Ok(db.(participants := db.participants + {row}))
  }

  lemma ExecuteKeepsValid(db: Db, st: Insert)
    requires Valid(db) && Execute(db, st).Ok?
    ensures Valid(Execute(db, st).db)
  {
  }

  // ---- The autocommitted statements ----

  /** DELETE ... with ON DELETE CASCADE through meetings to meeting_participants. */
  function Cascade(db: Db, slotId: Id): Db {
    var gone := set m | m in db.meetings && db.meetings[m].timeslotId == slotId;
    Db(db.users, db.slots - {slotId}, db.meetings - gone, set p | p in db.participants && p.meetingId !in gone)
  }

  /** What a call reports: how many rows, or the error. */
  datatype Outcome = Done | Rows(count: nat) | Failed(err: Error)

  /** `seen` is the set of slots the NOT EXISTS guard takes to be booked. */
  function DeleteTimeslot(db: Db, seen: set<Id>, slotId: Id): (Db, Outcome) {
    if slotId in db.slots && slotId !in seen then (Cascade(db, slotId), Rows(1)) else (db, Rows(0))
  }

  function UpdateTimeslot(db: Db, seen: set<Id>, slotId: Id, startAt: int, endAt: int, durationMins: int)
    : (Db, Outcome)
  {
    if slotId in db.slots && slotId !in seen then
      var row := db.slots[slotId].(startAt := startAt, endAt := endAt, durationMins := durationMins);
      if Checks(row) then (db.(slots := db.slots[slotId := row]), Rows(1)) else (db, Failed(PgError(CheckViolation)))
    else (db, Rows(0))
  }

  function CreateUser(db: Db, userId: Id, name: string): (Db, Outcome) {
    if userId in db.users then (db, Failed(PgError(UniqueViolation)))
    else (db.(users := db.users[userId := name]), Done)
  }

  lemma CascadeKeepsValid(db: Db, slotId: Id)
    requires Valid(db)
    ensures Valid(Cascade(db, slotId))
    ensures Booked(Cascade(db, slotId)) == Booked(db) - {slotId}
  {
    var after := Cascade(db, slotId);
    assert forall m :: m in after.meetings <==> m in db.meetings && db.meetings[m].timeslotId != slotId;
    forall s ensures s in Booked(after) <==> s in Booked(db) && s != slotId {
      if s in Booked(db) && s != slotId {
        var m :| m in db.meetings && db.meetings[m].timeslotId == s;
        assert m in after.meetings;
      }
    }
  }

  /** A delete whose guard saw the truth removes no meeting and no participant. */
  lemma GuardedDeleteRemovesOnlyTheSlot(db: Db, slotId: Id)
    requires slotId !in Booked(db)
    ensures Cascade(db, slotId) == db.(slots := db.slots - {slotId})
  {
  }

  // ---- Which constraint refuses a statement ----

  /** A slot is accepted if and only if its id is new and the schema holds with it; otherwise the
      error names the first constraint it breaks: a CHECK, then the key, then the user. */
  lemma InsertSlotExactly(db: Db, id: Id, row: Slot)
    requires Valid(db)
    ensures var r, after := Execute(db, InsertSlot(id, row)), db.(slots := db.slots[id := row]);
            && (r.Ok? <==> id !in db.slots && Valid(after))
            && (r.Ok? ==> r.db == after)
            && (r == Err(PgError(CheckViolation)) <==> !(10 <= row.durationMins <= 60 && row.startAt < row.endAt))
            && (r == Err(PgError(ForeignKeyViolation)) <==>
                  10 <= row.durationMins <= 60 && row.startAt < row.endAt && id !in db.slots && row.userId !in db.users)
            && (r.Err? ==> r.err in {PgError(CheckViolation), PgError(UniqueViolation), PgError(ForeignKeyViolation)})
  {
    var after := db.(slots := db.slots[id := row]);
    assert after.slots[id] == row;
    if Execute(db, InsertSlot(id, row)).Ok? { ExecuteKeepsValid(db, InsertSlot(id, row)); }
  }

  /** A meeting is accepted if and only if its id is new and the schema holds with it; it breaks the
      UNIQUE if the id or the slot is taken, and otherwise the reference to its slot. */
  lemma InsertMeetingExactly(db: Db, id: Id, row: Meeting)
    requires Valid(db)
    ensures var r, after := Execute(db, InsertMeeting(id, row)), db.(meetings := db.meetings[id := row]);
            && (r.Ok? <==> id !in db.meetings && Valid(after))
            && (r.Ok? ==> r.db == after)
            && (r == Err(PgError(UniqueViolation)) <==>
                  id in db.meetings || exists m :: m in db.meetings && db.meetings[m].timeslotId == row.timeslotId)
            && (r.Err? ==> r.err == PgError(UniqueViolation)
                           || (r.err == PgError(ForeignKeyViolation) && row.timeslotId !in db.slots))
  {
    var after := db.(meetings := db.meetings[id := row]);
    assert after.meetings[id] == row;
    if Execute(db, InsertMeeting(id, row)).Ok? { ExecuteKeepsValid(db, InsertMeeting(id, row)); }
    if m :| m in db.meetings && db.meetings[m].timeslotId == row.timeslotId {
      assert row.timeslotId in Booked(db);
      if id !in db.meetings { assert after.meetings[m] == db.meetings[m]; }
    }
  }

  /** A participant is accepted if and only if the schema holds with it, and one already there is
      no error. */
  lemma InsertParticipantExactly(db: Db, row: Participant)
    requires Valid(db)
    ensures var r, after := Execute(db, InsertParticipant(row)), db.(participants := db.participants + {row});
            && (r.Ok? <==> Valid(after))
            && (r.Ok? ==> r.db == after)
            && (r.Err? ==> r.err == PgError(ForeignKeyViolation))
  {
    var after := db.(participants := db.participants + {row});
    assert row in after.participants;
    if row in db.participants { assert db.participants + {row} == db.participants; }
  }

  /** An update of a slot its guard takes to be free writes the given times and duration, or
      reports a CHECK violation; else no row matches. Nothing else changes. */
  lemma UpdateExactly(db: Db, seen: set<Id>, id: Id, startAt: int, endAt: int, minutes: int)
    ensures var (after, outcome) := UpdateTimeslot(db, seen, id, startAt, endAt, minutes);
            && (outcome == Rows(1) <==>
                  id in db.slots && id !in seen && 10 <= minutes <= 60 && startAt < endAt)
            && (outcome == Failed(PgError(CheckViolation)) <==>
                  id in db.slots && id !in seen && !(10 <= minutes <= 60 && startAt < endAt))
            && (outcome == Rows(0) <==> !(id in db.slots && id !in seen))
            && after == if outcome == Rows(1)
                        then db.(slots := db.slots[id := Slot(db.slots[id].userId, startAt, endAt, minutes)]) else db
  {
  }

  /** A new user needs a new id. */
  lemma CreateUserExactly(db: Db, userId: Id, name: string)
    ensures CreateUser(db, userId, name) ==
            if userId in db.users then (db, Failed(PgError(UniqueViolation)))
            else (db.(users := db.users[userId := name]), Done)
  {
  }

  /** A delete of a slot its guard takes to be free removes the slot, its meeting if there is one
      after all, and the participants of that; else no row matches and nothing changes. */
  lemma DeleteExactly(db: Db, seen: set<Id>, id: Id)
    ensures var (after, outcome) := DeleteTimeslot(db, seen, id);
            if id in db.slots && id !in seen then
              && outcome == Rows(1) && after.users == db.users && after.slots == db.slots - {id}
              && (forall m :: m in after.meetings <==> m in db.meetings && db.meetings[m].timeslotId != id)
              && (forall m :: m in after.meetings ==> after.meetings[m] == db.meetings[m])
              && (forall p :: p in after.participants <==>
                    p in db.participants && (p.meetingId in db.meetings ==> db.meetings[p.meetingId].timeslotId != id))
            else outcome == Rows(0) && after == db
  {
  }
}
