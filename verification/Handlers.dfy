/** The HTTP handlers from the parsed request on: validation, one store call, and the status the
    outcome is mapped to (internal/timeslots/http_handlers.go, internal/onboarding/http_handlers.go). */
module Handlers {
  import opened GoErrors
  import opened Schema
  import opened Slicing
  import opened Transactions
  import opened Username
  import opened Diagnosis
  import S = Store

  const CREATED := 201
  const NO_CONTENT := 204
  const BAD_REQUEST := 400
  const CONFLICT := 409
  const INTERNAL := 500

  predicate ValidPeriods(windows: seq<Window>) {
    forall i :: 0 <= i < |windows| ==> windows[i].endAt > windows[i].startAt
  }

  predicate AcceptsOffer(windows: seq<Window>, durationMins: Int32) {
    InRange(durationMins) && windows != [] && ValidPeriods(windows)
  }

  predicate AcceptsUpdate(startAt: int, endAt: int, durationMins: Int32) {
    endAt > startAt && InRange(durationMins)
  }

  predicate AcceptsName(name: string) {
    |name| > 3 && Matches(USER_NAME, name)
  }

  class HTTPHandler {
    const store: S.Store

    constructor (store: S.Store)
      ensures this.store == store
    {
      this.store := store;
    }

    method CreateTimeslot(userId: Id, availability: seq<Window>, durationMins: Int32, ids: seq<Id>, faults: Faults)
      returns (status: int, timeslotIds: seq<Id>)
      modifies store.pool
      ensures status == 400 <==> !AcceptsOffer(availability, durationMins)
      ensures status == 400 ==> store.pool.Contents() == old(store.pool.Contents())
      ensures status != 400 ==>
                var op := Op.CreateAvailability(userId, availability, durationMins, ids);
                var (after, err) := InTransaction(old(store.pool.Contents()), Program(op), faults);
                && store.pool.Contents() == after
                && status == (if err == Nil then 201 else 500)
                && (err == Nil ==>
                      && |timeslotIds| == |Offered(op)|
                      && forall i :: 0 <= i < |timeslotIds| ==> timeslotIds[i] == Offered(op)[i].id)
    {
      timeslotIds := [];
      if durationMins < MIN_DURATION_MINS || durationMins > MAX_DURATION_MINS {
        return BAD_REQUEST, [];
      }
      if |availability| == 0 {
        return BAD_REQUEST, [];
      }
      var windows: seq<Window> := [];
      for i := 0 to |availability|
        invariant windows == availability[..i] && ValidPeriods(windows)
      {
        var a := availability[i];
        if a.endAt <= a.startAt {
          return BAD_REQUEST, [];
        }
        windows := windows + [Window(a.startAt, a.endAt)];
      }
      assert windows == availability;
      var created, err := store.CreateAvailability(userId, windows, durationMins, ids, faults);
      if err != Nil {
        return INTERNAL, [];
      }
      for i := 0 to |created|
        invariant |timeslotIds| == i
        invariant forall k :: 0 <= k < i ==> timeslotIds[k] == created[k].id
      {
        timeslotIds := timeslotIds + [created[i].id];
      }
      status := CREATED;
    }

    method UpdateTimeslot(id: Id, startAt: int, endAt: int, durationMins: Int32, fault: Error) returns (status: int)
      modifies store.pool
      ensures status == 400 <==> !AcceptsUpdate(startAt, endAt, durationMins)
      ensures status != 204 ==> store.pool.Contents() == old(store.pool.Contents())
      ensures AcceptsUpdate(startAt, endAt, durationMins) && fault != Nil ==> status == 500
      ensures AcceptsUpdate(startAt, endAt, durationMins) && fault == Nil ==>
                var before := old(store.pool.Contents());
                status == if id in before.slots && id !in Booked(before) then 204 else 409
      ensures status == 204 ==>
                var before := old(store.pool.Contents());
                && id in before.slots
                && var row := Slot(before.slots[id].userId, startAt, endAt, durationMins);
                   store.pool.Contents() == before.(slots := before.slots[id := row])
    {
      if endAt <= startAt {
        return BAD_REQUEST;
      }
      if durationMins < MIN_DURATION_MINS || durationMins > MAX_DURATION_MINS {
        return BAD_REQUEST;
      }
      var rows, err := store.pool.UpdateTimeslot(id, startAt, endAt, durationMins, fault);
      if err != Nil {
        return INTERNAL;
      }
      return if rows == 0 then CONFLICT else NO_CONTENT;
    }

    method DeleteTimeslot(id: Id, fault: Error) returns (status: int)
      modifies store.pool
      ensures status != 204 ==> store.pool.Contents() == old(store.pool.Contents())
      ensures fault != Nil ==> status == 500
      ensures fault == Nil ==>
                var before := old(store.pool.Contents());
                status == if id in before.slots && id !in Booked(before) then 204 else 409
      ensures status == 204 ==>
                store.pool.Contents() == old(store.pool.Contents()).(slots := old(store.pool.Contents()).slots - {id})
    {
      if id !in Booked(store.pool.Contents()) { GuardedDeleteRemovesOnlyTheSlot(store.pool.Contents(), id); }
      var rows, err := store.pool.DeleteTimeslot(id, fault);
      if err != Nil {
        return INTERNAL;
      }
      return if rows == 0 then CONFLICT else NO_CONTENT;
    }

    /** `id` is the meeting id uuid.New() hands out. */
    method CreateMeeting(id: Id, meeting: Meeting, attendees: seq<string>, faults: Faults)
      returns (status: int, meetingId: Id)
      modifies store.pool
      ensures status == 400 <==> meeting.title == ""
      ensures status != 201 ==> store.pool.Contents() == old(store.pool.Contents())
      ensures status == 201 ==>
                && meetingId == id
                && store.pool.Contents() == Serial(old(store.pool.Contents()), BookMeeting(id, meeting, attendees)).0
      ensures status != 400 ==>
                var op := Op.BookMeeting(id, meeting, attendees);
                var (after, err) := InTransaction(old(store.pool.Contents()), Program(op), faults);
                && store.pool.Contents() == after
                && status == if err == Nil then 201 else if Is(err, ERR_SLOT_TAKEN) then 409 else 500
      ensures var before := old(store.pool.Contents());
              status != 400 && faults == NO_FAULTS && Valid(before) && id !in before.meetings ==>
                status == if meeting.timeslotId in Booked(before) then 409
                          else if meeting.timeslotId in before.slots then 201
                          else 500
      ensures var first := FaultAt(faults, 1);
              meeting.title != "" && FaultAt(faults, 0) == Nil && first != Nil ==>
                status == if MeansTaken(first) then 409 else 500
      ensures var before := old(store.pool.Contents());
              var taken := id in before.meetings || meeting.timeslotId in Booked(before);
              && (meeting.title != "" && NoFaultBefore(faults, 2) && taken ==> status == 409)
              && (meeting.title != "" && !taken && meeting.timeslotId in before.slots ==>
                    forall k :: 2 <= k < |attendees| + 2 && NoFaultBefore(faults, k) && FaultAt(faults, k) != Nil ==>
                      status == if CarriesTaken(FaultAt(faults, k)) then 409 else 500)
    {
      if meeting.title == "" {
        return BAD_REQUEST, 0;
      }
      ghost var before, op := store.pool.Contents(), Op.BookMeeting(id, meeting, attendees);
      TransactionIsAtomic(before, Program(op), faults);
      TransactionIsAtomic(before, Program(op), NO_FAULTS);
      BookingStatuses(before, op);
      BookingReportsTaken(before, op, faults);
      meetingId, status := 0, CREATED;
      var err: Error;
      meetingId, err := store.BookMeeting(id, meeting, attendees, faults);
      if err != Nil {
        return if Is(err, ERR_SLOT_TAKEN) then CONFLICT else INTERNAL, 0;
      }
    }

    /** POST /users, with the id uuid.New() hands out. */
    method CreateUser(id: Id, name: string, fault: Error) returns (status: int)
      modifies store.pool
      ensures status == 400 <==> !AcceptsName(name)
      ensures status != 201 ==> store.pool.Contents() == old(store.pool.Contents())
      ensures status == 201 ==>
                var before := old(store.pool.Contents());
                store.pool.Contents() == before.(users := before.users[id := name])
      ensures AcceptsName(name) ==>
                status == if fault == Nil && id !in old(store.pool.Contents()).users then 201 else 500
    {
      if |name| <= 3 {
        return BAD_REQUEST;
      }
      if !Matches(USER_NAME, name) {
        return BAD_REQUEST;
      }
      var err := store.pool.CreateUser(id, name, fault);
      return if err == Nil then CREATED else INTERNAL;
    }
  }

  lemma BookingStatuses(db: Db, op: Op)
    requires op.BookMeeting?
    ensures Valid(db) && op.meetingId !in db.meetings ==>
              var err := InTransaction(db, Program(op), NO_FAULTS).1;
              && (op.meeting.timeslotId in Booked(db) ==> err != Nil && Is(err, ERR_SLOT_TAKEN))
              && (op.meeting.timeslotId !in db.slots ==> err != Nil && !Is(err, ERR_SLOT_TAKEN))
              && (op.meeting.timeslotId in db.slots && op.meeting.timeslotId !in Booked(db) ==> err == Nil)
  {
    BookingOutcome(db, op);
    if Valid(db) && op.meetingId !in db.meetings {
      BookingErrorsExactly(db, op);
      assert forall m :: m in db.meetings ==> db.meetings[m].timeslotId in db.slots;
    }
  }

  // ---- Validation discharges the schema ----

  /** No statement of an accepted offer can break a CHECK, whatever the tables hold. */
  lemma AcceptedOfferNeverBreaksCheck(op: Op, view: Db, k: nat)
    requires op.CreateAvailability? && AcceptsOffer(op.windows, op.durationMins) && k < |Program(op)|
    ensures Execute(view, Program(op)[k]) != Result.Err(PgError(CheckViolation))
  {
    PlannedRow(op.userId, op.windows, op.durationMins, k);
  }

  lemma AcceptedUpdateNeverBreaksCheck(db: Db, seen: set<Id>, id: Id, startAt: int, endAt: int, durationMins: Int32)
    requires AcceptsUpdate(startAt, endAt, durationMins)
    ensures UpdateTimeslot(db, seen, id, startAt, endAt, durationMins).1.Rows?
  {
  }

  /** No window yields a slot exactly if each is shorter than one slot. */
  lemma {:induction false} NoSlotsExactly(userId: Id, windows: seq<Window>, durationMins: Int32)
    requires InRange(durationMins)
    ensures Plan(userId, windows, durationMins) == [] <==>
            forall i :: 0 <= i < |windows| ==> windows[i].endAt - windows[i].startAt < durationMins * MINUTE
  {
    LengthInRange(durationMins);
    if windows != [] {
      NoSlotsExactly(userId, windows[1..], durationMins);
      assert forall i :: 1 <= i < |windows| ==> windows[i] == windows[1..][i - 1];
    }
  }

  /** Without faults and with new ids, an accepted offer succeeds exactly if the user exists or
      no window is long enough for a slot. */
  lemma AcceptedOfferSucceedsExactly(db: Db, op: Op)
    requires op.CreateAvailability? && AcceptsOffer(op.windows, op.durationMins)
    requires DistinctIds(Offered(op)) && forall i :: 0 <= i < |Offered(op)| ==> Offered(op)[i].id !in db.slots
    ensures Serial(db, op).1 == Done <==>
            || op.userId in db.users
            || forall i :: 0 <= i < |op.windows| ==>
                 op.windows[i].endAt - op.windows[i].startAt < op.durationMins * MINUTE
  {
    OfferOutcome(db, op);
    NoSlotsExactly(op.userId, op.windows, op.durationMins);
    AcceptedRowsFit(db, op);
  }

  lemma AcceptedRowsFit(db: Db, op: Op)
    requires op.CreateAvailability? && AcceptsOffer(op.windows, op.durationMins)
    requires DistinctIds(Offered(op)) && forall i :: 0 <= i < |Offered(op)| ==> Offered(op)[i].id !in db.slots
    ensures Insertable(db, Offered(op)) <==> op.userId in db.users || Plan(op.userId, op.windows, op.durationMins) == []
  {
    var rows := Offered(op);
    forall i | 0 <= i < |rows| ensures Checks(rows[i].slot) && rows[i].slot.userId == op.userId {
      PlannedRow(op.userId, op.windows, op.durationMins, i);
    }
    if rows != [] { assert rows[0].slot.userId == op.userId; }
  }

  /** Out of range, the store call fails or creates nothing: it changes no table. */
  lemma OutOfRangeCreatesNothing(db: Db, op: Op, faults: Faults)
    requires op.CreateAvailability? && !InRange(op.durationMins)
    ensures InTransaction(db, Program(op), faults).0 == db
    ensures Program(op) != [] ==> InTransaction(db, Program(op), faults).1 != Nil
  {
    TransactionIsAtomic(db, Program(op), faults);
    OfferOutcome(db, op);
    if Program(op) != [] {
      PlannedRow(op.userId, op.windows, op.durationMins, 0);
      assert !Checks(Offered(op)[0].slot);
      assert !Insertable(db, Offered(op));
    } else {
      assert Replay(db, Program(op), NO_FAULTS) == Result.Ok(db);
    }
  }

  // ---- Validation is the schema ----

  /** A request to change a slot is refused if and only if the row it asks for breaks a CHECK. */
  lemma UpdateIsRefusedExactly(startAt: int, endAt: int, durationMins: Int32)
    ensures forall userId :: AcceptsUpdate(startAt, endAt, durationMins) <==>
              Checks(Slot(userId, startAt, endAt, durationMins))
    ensures AcceptsUpdate(startAt, endAt, durationMins) <==> startAt < endAt && 10 <= durationMins <= 60
  {
  }

  /** ... if and only if the statement would report a CHECK violation for a slot that is free. */
  lemma RefusedUpdateBreaksCheck(db: Db, id: Id, startAt: int, endAt: int, durationMins: Int32)
    requires id in db.slots && id !in Booked(db)
    ensures !AcceptsUpdate(startAt, endAt, durationMins) <==>
            Serial(db, Update(id, startAt, endAt, durationMins)) == (db, Failed(PgError(CheckViolation)))
  {
    UpdateExactly(db, Booked(db), id, startAt, endAt, durationMins);
  }

  /** An offer is refused if and only if it has no window, or one that as a row with the offered
      duration breaks a CHECK. */
  lemma OfferIsRefusedExactly(userId: Id, windows: seq<Window>, durationMins: Int32)
    ensures !AcceptsOffer(windows, durationMins) <==>
            windows == [] ||
            exists i :: 0 <= i < |windows| && !Checks(Slot(userId, windows[i].startAt, windows[i].endAt, durationMins))
    ensures AcceptsOffer(windows, durationMins) <==>
            && 10 <= durationMins <= 60 && windows != []
            && forall i :: 0 <= i < |windows| ==> windows[i].startAt < windows[i].endAt
  {
    if windows != [] && !InRange(durationMins) {
      assert !Checks(Slot(userId, windows[0].startAt, windows[0].endAt, durationMins));
    }
  }

  /** A letter or a digit of ASCII. */
  predicate AsciiAlnum(c: char) {
    65 <= c as int <= 90 || 97 <= c as int <= 122 || 48 <= c as int <= 57
  }

  /** Space, hyphen or underscore. */
  predicate AsciiSeparator(c: char) {
    c as int == 32 || c as int == 45 || c as int == 95
  }

  /** A name is accepted if and only if it has at least four characters, starts and ends with a
      letter or digit, holds only those and separators, and no two separators in a row. */
  lemma AcceptedNamesExactly(name: string)
    ensures AcceptsName(name) <==>
            && |name| >= 4 && AsciiAlnum(name[0]) && AsciiAlnum(name[|name| - 1])
            && (forall i :: 0 <= i < |name| ==> AsciiAlnum(name[i]) || AsciiSeparator(name[i]))
            && (forall i :: 0 <= i < |name| - 1 ==> !(AsciiSeparator(name[i]) && AsciiSeparator(name[i + 1])))
  {
    UserNameMeansWellFormed(name);
    forall c: char ensures (IsAlnum(c) <==> AsciiAlnum(c)) && (IsSep(c) <==> AsciiSeparator(c)) {
    }
  }
}
