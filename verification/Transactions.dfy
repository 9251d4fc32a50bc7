/** The operations of the store as one-at-a-time steps: the serial specification that the loops
    of the Store class and the interleavings of the Protocol module are proved against. */
module Transactions {
  import opened GoErrors
  import opened Schema
  import opened Slicing

  /** One call of a store operation. `ids` are the values uuid.New() hands out, in order: as many
      as the call comes to need. */
  datatype Op =
    | BookMeeting(meetingId: Id, meeting: Meeting, attendees: seq<string>)
    | CreateAvailability(userId: Id, windows: seq<Window>, durationMins: Int32, ids: seq<Id>)
    | Update(slotId: Id, startAt: int, endAt: int, minutes: Int32)
    | Delete(slotId: Id)
    | AddUser(newUserId: Id, name: string)
  {
    /** Runs inside withTx; the others are one autocommitted statement. */
    predicate Transactional() {
      BookMeeting? || CreateAvailability?
    }
  }

  datatype Row = Row(id: Id, slot: Slot)

  function IdAt(ids: seq<Id>, i: nat): Id {
    if i < |ids| then ids[i] else 0
  }

  function WithIds(plan: seq<Slot>, ids: seq<Id>): seq<Row> {
    seq(|plan|, i requires 0 <= i < |plan| => Row(IdAt(ids, i), plan[i]))
  }

  /** The rows a CreateAvailability call attempts, with their ids. */
  function Offered(op: Op): seq<Row> {
    if op.CreateAvailability? then WithIds(Plan(op.userId, op.windows, op.durationMins), op.ids) else []
  }

  /** The statements of a transaction, in order. */
  function Program(op: Op): seq<Insert> {
    match op
    case BookMeeting(id, meeting, attendees) =>
      [InsertMeeting(id, meeting)]
      + seq(|attendees|, i requires 0 <= i < |attendees| => InsertParticipant(Participant(id, attendees[i])))
    case CreateAvailability(_, _, _, _) =>
      var rows := Offered(op);
      seq(|rows|, i requires 0 <= i < |rows| => InsertSlot(rows[i].id, rows[i].slot))
    case _ => []
  }

  /** How the store reports the error of a statement: only the meeting insert turns a unique
      violation into ErrSlotTaken, everything else is wrapped. */
  function Reported(st: Insert, raw: Error): Error {
    if st.InsertMeeting? && IsUniqueConstraintErr(raw) then ERR_SLOT_TAKEN else WrapPostgresError(raw)
  }

  /** One statement that fails with `fault` unless that is Nil. */
  function Attempt(db: Db, st: Insert, fault: Error): Result {
    if fault != Nil then Err(Reported(st, fault))
    else
      match Execute(db, st)
      case Ok(after) => Ok(after)
      case Err(raw) => Err(Reported(st, raw))
  }

  /** Injected failures by position; Nil, or nothing, means none. */
  type Faults = seq<Error>

  const NO_FAULTS: Faults := []

  function FaultAt(faults: Faults, k: nat): Error {
    if k < |faults| then faults[k] else Nil
  }

  /** Statements in order on the transaction's own view; the first error ends it.
      FaultAt(faults, 0) is BEGIN, FaultAt(faults, k + 1) statement k. */
  function Replay(db: Db, program: seq<Insert>, faults: Faults): Result {
    if program == [] then
      if FaultAt(faults, 0) != Nil then Err(FaultAt(faults, 0)) else Ok(db)
    else
      var last := |program| - 1;
      match Replay(db, program[..last], faults)
      case Err(err) => Err(err)
      case Ok(view) => Attempt(view, program[last], FaultAt(faults, last + 1))
  }

  /** withTx: COMMIT publishes the view, any error leaves the database alone. */
  function InTransaction(db: Db, program: seq<Insert>, faults: Faults): (Db, Error) {
    match Replay(db, program, faults)
    case Err(err) => (db, err)
    case Ok(view) => if FaultAt(faults, |program| + 1) != Nil then (db, FaultAt(faults, |program| + 1)) else (view, Nil)
  }

  function Autocommit(db: Db, op: Op, seen: set<Id>): (Db, Outcome)
    requires !op.Transactional()
  {
    match op
    case Update(id, startAt, endAt, minutes) => UpdateTimeslot(db, seen, id, startAt, endAt, minutes)
    case Delete(id) => DeleteTimeslot(db, seen, id)
    case AddUser(id, name) => CreateUser(db, id, name)
  }

  /** The operation run alone and without faults. */
  function Serial(db: Db, op: Op): (Db, Outcome) {
    if op.Transactional() then
      var (after, err) := InTransaction(db, Program(op), NO_FAULTS);
      (after, if err == Nil then Done else Failed(err))
    else Autocommit(db, op, Booked(db))
  }

  // ---- Replays ----

  lemma ReplayStep(db: Db, program: seq<Insert>, faults: Faults, k: nat)
    requires k < |program|
    ensures Replay(db, program[..k + 1], faults)
         == match Replay(db, program[..k], faults)
            case Err(err) => Err(err)
            case Ok(view) => Attempt(view, program[k], FaultAt(faults, k + 1))
  {
    assert program[..k + 1][..k] == program[..k];
  }

  /** A failing prefix fails the whole transaction in the same way. */
  lemma {:induction false} ReplayFailsEarly(db: Db, program: seq<Insert>, faults: Faults, k: nat)
    requires k <= |program| && Replay(db, program[..k], faults).Err?
    ensures Replay(db, program, faults) == Replay(db, program[..k], faults)
    decreases |program| - k
  {
    if k == |program| {
      assert program[..k] == program;
    } else {
      ReplayStep(db, program, faults, k);
      ReplayFailsEarly(db, program, faults, k + 1);
    }
  }

  lemma {:induction false} ReplayKeepsValid(db: Db, program: seq<Insert>, faults: Faults)
    requires Valid(db) && Replay(db, program, faults).Ok?
    ensures Valid(Replay(db, program, faults).db)
  {
    if program != [] {
      var last := |program| - 1;
      ReplayKeepsValid(db, program[..last], faults);
      ExecuteKeepsValid(Replay(db, program[..last], faults).db, program[last]);
    }
  }

  lemma ReportedIsAnError(st: Insert, raw: Error)
    requires raw != Nil
    ensures Reported(st, raw) != Nil
  {
  }

  lemma WrapMappedOrOther(raw: Error)
    requires raw != Nil
    ensures WrapPostgresError(raw) != Nil
  {
  }

  lemma {:induction false} ReplayErrorIsReal(db: Db, program: seq<Insert>, faults: Faults)
    requires Replay(db, program, faults).Err?
    ensures Replay(db, program, faults).err != Nil
  {
    if program != [] {
      var last := |program| - 1;
      var before := Replay(db, program[..last], faults);
      if before.Err? {
        ReplayErrorIsReal(db, program[..last], faults);
      } else if FaultAt(faults, last + 1) != Nil {
        ReportedIsAnError(program[last], FaultAt(faults, last + 1));
      } else {
        ReportedIsAnError(program[last], Execute(before.db, program[last]).err);
      }
    }
  }

  /** Without a fault the replay is the faultless one; with one, it cannot succeed. */
  lemma {:induction false} ReplayWithFaults(db: Db, program: seq<Insert>, faults: Faults)
    ensures Replay(db, program, faults).Ok? <==>
            (forall k :: 0 <= k <= |program| ==> FaultAt(faults, k) == Nil) && Replay(db, program, NO_FAULTS).Ok?
    ensures Replay(db, program, faults).Ok? ==> Replay(db, program, faults) == Replay(db, program, NO_FAULTS)
  {
    if program != [] {
      ReplayWithFaults(db, program[..|program| - 1], faults);
    }
  }

  /** Atomicity under a fault at BEGIN, at any statement, or at COMMIT: the call succeeds exactly
      when nothing fails and every statement is accepted, and then the database is the replayed
      one; otherwise there is an error and the database is the one before. */
  lemma TransactionIsAtomic(db: Db, program: seq<Insert>, faults: Faults)
    ensures var (after, err) := InTransaction(db, program, faults);
            && (err == Nil <==>
                  && (forall k :: 0 <= k <= |program| + 1 ==> FaultAt(faults, k) == Nil)
                  && Replay(db, program, NO_FAULTS).Ok?)
            && after == if err == Nil then Replay(db, program, NO_FAULTS).db else db
  {
    ReplayWithFaults(db, program, faults);
    if Replay(db, program, faults).Err? { ReplayErrorIsReal(db, program, faults); }
  }

  // ---- Closed form of a booking ----

  function Emails(attendees: seq<string>): set<string> {
    set i | 0 <= i < |attendees| :: attendees[i]
  }

  function Invitations(meetingId: Id, attendees: seq<string>): set<Participant> {
    set i | 0 <= i < |attendees| :: Participant(meetingId, attendees[i])
  }

  predicate CanBook(db: Db, meetingId: Id, slotId: Id) {
    meetingId !in db.meetings && slotId in db.slots && slotId !in Booked(db)
  }

  lemma {:induction false} ReplayBooking(db: Db, op: Op, k: nat)
    requires op.BookMeeting? && k <= |op.attendees|
    ensures Replay(db, Program(op)[..k + 1], NO_FAULTS) ==
            if op.meetingId in db.meetings || op.meeting.timeslotId in Booked(db) then Err(ERR_SLOT_TAKEN)
            else if op.meeting.timeslotId !in db.slots then Err(Wrapped([ERR_FOREIGN_KEY]))
            else Ok(db.(meetings := db.meetings[op.meetingId := op.meeting],
                        participants := db.participants + Invitations(op.meetingId, op.attendees[..k])))
    decreases k
  {
    var program := Program(op);
    ReplayStep(db, program, NO_FAULTS, k);
    if k == 0 {
      assert program[..0] == [];
      assert Invitations(op.meetingId, op.attendees[..0]) == {};
      assert db.participants + {} == db.participants;
    } else {
      ReplayBooking(db, op, k - 1);
      var invited := Participant(op.meetingId, op.attendees[k - 1]);
      assert program[k] == InsertParticipant(invited);
      InvitationsStep(op.meetingId, op.attendees, k - 1);
      if CanBook(db, op.meetingId, op.meeting.timeslotId) {
        assert db.participants + Invitations(op.meetingId, op.attendees[..k])
            == db.participants + Invitations(op.meetingId, op.attendees[..k - 1]) + {invited};
      }
    }
  }

  lemma InvitationsStep(meetingId: Id, attendees: seq<string>, k: nat)
    requires k < |attendees|
    ensures Invitations(meetingId, attendees[..k + 1])
         == Invitations(meetingId, attendees[..k]) + {Participant(meetingId, attendees[k])}
  {
  }

  /** A booking alone: ErrSlotTaken exactly when the slot is booked (or the id is not new), a
      foreign-key error exactly when the slot is absent, and otherwise the database gains the
      meeting and the set of its attendees, whatever their order and repetitions. */
  lemma BookingOutcome(db: Db, op: Op)
    requires op.BookMeeting?
    ensures var slot := op.meeting.timeslotId;
            && (op.meetingId in db.meetings || slot in Booked(db) ==> Serial(db, op) == (db, Failed(ERR_SLOT_TAKEN)))
            && (op.meetingId !in db.meetings && slot !in Booked(db) && slot !in db.slots ==>
                  Serial(db, op) == (db, Failed(Wrapped([ERR_FOREIGN_KEY]))))
            && (CanBook(db, op.meetingId, slot) ==>
                  Serial(db, op) ==
                  (db.(meetings := db.meetings[op.meetingId := op.meeting],
                       participants := db.participants + Invitations(op.meetingId, op.attendees)), Done))
  {
    var n := |op.attendees|;
    ReplayBooking(db, op, n);
    assert Program(op)[..n + 1] == Program(op);
    assert op.attendees[..n] == op.attendees;
  }

  /** Order and repetition of the attendees do not matter. */
  lemma OnlyTheSetOfAttendeesMatters(db: Db, id: Id, meeting: Meeting, attendees: seq<string>, attendees': seq<string>)
    requires Emails(attendees) == Emails(attendees')
    ensures Serial(db, BookMeeting(id, meeting, attendees)) == Serial(db, BookMeeting(id, meeting, attendees'))
  {
    BookingOutcome(db, BookMeeting(id, meeting, attendees));
    BookingOutcome(db, BookMeeting(id, meeting, attendees'));
    forall p ensures p in Invitations(id, attendees) <==> p in Invitations(id, attendees') {
      assert p in Invitations(id, attendees) <==> p.meetingId == id && p.email in Emails(attendees);
      assert p in Invitations(id, attendees') <==> p.meetingId == id && p.email in Emails(attendees');
    }
    assert Invitations(id, attendees) == Invitations(id, attendees');
  }

  lemma BookingErrorsExactly(db: Db, op: Op)
    requires Valid(db) && op.BookMeeting? && op.meetingId !in db.meetings
    ensures var outcome := Serial(db, op).1;
            && (outcome == Failed(ERR_SLOT_TAKEN) <==> op.meeting.timeslotId in Booked(db))
            && (outcome.Failed? && Is(outcome.err, ERR_FOREIGN_KEY) <==> op.meeting.timeslotId !in db.slots)
            && (outcome == Done <==> op.meeting.timeslotId in db.slots && op.meeting.timeslotId !in Booked(db))
  {
    BookingOutcome(db, op);
    assert forall m :: m in db.meetings ==> db.meetings[m].timeslotId in db.slots;
    assert Is(Wrapped([ERR_FOREIGN_KEY]), ERR_FOREIGN_KEY) by {
      assert Wrapped([ERR_FOREIGN_KEY]).causes[0] == ERR_FOREIGN_KEY;
    }
  }

  // ---- Closed form of an offer ----

  function RowMap(rows: seq<Row>): map<Id, Slot> {
    if rows == [] then map[] else RowMap(rows[..|rows| - 1])[rows[|rows| - 1].id := rows[|rows| - 1].slot]
  }

  ghost predicate DistinctIds(rows: seq<Row>) {
    forall i, j :: 0 <= i < j < |rows| ==> rows[i].id != rows[j].id
  }

  ghost predicate Insertable(db: Db, rows: seq<Row>) {
    && DistinctIds(rows)
    && forall i :: 0 <= i < |rows| ==>
         rows[i].id !in db.slots && Checks(rows[i].slot) && rows[i].slot.userId in db.users
  }

  lemma {:induction false} RowMapKeys(rows: seq<Row>)
    ensures forall id :: id in RowMap(rows) <==> exists i :: 0 <= i < |rows| && rows[i].id == id
    ensures forall id :: id in RowMap(rows) ==> exists i :: 0 <= i < |rows| && rows[i] == Row(id, RowMap(rows)[id])
    ensures DistinctIds(rows) ==>
            forall i :: 0 <= i < |rows| ==> rows[i].id in RowMap(rows) && RowMap(rows)[rows[i].id] == rows[i].slot
  {
    if rows != [] {
      var n := |rows| - 1;
      RowMapKeys(rows[..n]);
      assert forall i :: 0 <= i < n ==> rows[..n][i] == rows[i];
      forall id | id in RowMap(rows) ensures exists i :: 0 <= i < |rows| && rows[i] == Row(id, RowMap(rows)[id]) {
        if id == rows[n].id {
          assert rows[n] == Row(id, RowMap(rows)[id]);
        } else {
          assert id in RowMap(rows[..n]);
          var i :| 0 <= i < |rows[..n]| && rows[..n][i] == Row(id, RowMap(rows[..n])[id]);
          assert rows[i] == Row(id, RowMap(rows)[id]);
        }
      }
      forall id ensures id in RowMap(rows) <==> exists i :: 0 <= i < |rows| && rows[i].id == id {
        if i :| 0 <= i < |rows| && rows[i].id == id {
          if i < n { assert rows[..n][i].id == id; }
        }
      }
    }
  }

  lemma {:induction false} ReplayOffer(db: Db, op: Op, k: nat)
    requires op.CreateAvailability? && k <= |Offered(op)|
    ensures Replay(db, Program(op)[..k], NO_FAULTS).Ok? <==> Insertable(db, Offered(op)[..k])
    ensures Insertable(db, Offered(op)[..k]) ==>
            Replay(db, Program(op)[..k], NO_FAULTS) == Ok(db.(slots := db.slots + RowMap(Offered(op)[..k])))
    decreases k
  {
    var rows := Offered(op);
    if k == 0 {
      assert Program(op)[..0] == [] && rows[..0] == [];
      assert db.slots + map[] == db.slots;
    } else {
      var n := k - 1;
      assert Program(op)[n] == InsertSlot(rows[n].id, rows[n].slot);
      ReplayOffer(db, op, n);
      ReplayStep(db, Program(op), NO_FAULTS, n);
      InsertableStep(db, rows, n);
      RowMapStep(db, rows, n);
      if Insertable(db, rows[..n]) {
        var view := db.(slots := db.slots + RowMap(rows[..n]));
        assert Replay(db, Program(op)[..k], NO_FAULTS) == Attempt(view, InsertSlot(rows[n].id, rows[n].slot), Nil);
      }
    }
  }

  lemma RowMapStep(db: Db, rows: seq<Row>, n: nat)
    requires n < |rows|
    ensures db.slots + RowMap(rows[..n + 1]) == (db.slots + RowMap(rows[..n]))[rows[n].id := rows[n].slot]
  {
    assert rows[..n + 1][..n] == rows[..n] && rows[..n + 1][n] == rows[n];
  }

  lemma InsertableStep(db: Db, rows: seq<Row>, n: nat)
    requires n < |rows|
    ensures Insertable(db, rows[..n + 1]) <==>
            && Insertable(db, rows[..n])
            && rows[n].id !in db.slots && Checks(rows[n].slot) && rows[n].slot.userId in db.users
            && rows[n].id !in RowMap(rows[..n])
  {
    var shorter, longer := rows[..n], rows[..n + 1];
    RowMapKeys(shorter);
    assert forall i :: 0 <= i < n ==> longer[i] == shorter[i];
    assert longer[n] == rows[n];
    if rows[n].id in RowMap(shorter) {
      var i :| 0 <= i < |shorter| && shorter[i].id == rows[n].id;
      assert longer[i].id == longer[n].id;
    }
  }

  /** An offer alone succeeds exactly when its rows can all be inserted, and then the table of
      slots grows by exactly those rows. */
  lemma OfferOutcome(db: Db, op: Op)
    requires op.CreateAvailability?
    ensures Serial(db, op).1 == Done <==> Insertable(db, Offered(op))
    ensures Insertable(db, Offered(op)) ==> Serial(db, op).0 == db.(slots := db.slots + RowMap(Offered(op)))
    ensures !Insertable(db, Offered(op)) ==> Serial(db, op).0 == db
  {
    var n := |Offered(op)|;
    ReplayOffer(db, op, n);
    assert Program(op)[..n] == Program(op) && Offered(op)[..n] == Offered(op);
    if Replay(db, Program(op), NO_FAULTS).Err? { ReplayErrorIsReal(db, Program(op), NO_FAULTS); }
  }

  lemma SerialKeepsValid(db: Db, op: Op)
    requires Valid(db)
    ensures Valid(Serial(db, op).0)
  {
    if op.Transactional() {
      if Replay(db, Program(op), NO_FAULTS).Ok? { ReplayKeepsValid(db, Program(op), NO_FAULTS); }
    } else if op.Delete? {
      CascadeKeepsValid(db, op.slotId);
    }
  }
}
