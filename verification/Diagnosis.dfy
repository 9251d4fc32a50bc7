/** What the error of a transaction lets its caller find, for every failure at every position. */
module Diagnosis {
  import opened GoErrors
  import opened Schema
  import opened Slicing
  import opened Transactions

  /** The first driver error in it has one of the three codes that are mapped. */
  predicate Classified(raw: Error) {
    FirstPg(raw) in {PgError(ForeignKeyViolation), PgError(UniqueViolation), PgError(CheckViolation)}
  }

  /** The error of a statement, injected or by constraint; Nil if it has none. */
  function RawError(view: Db, st: Insert, fault: Error): Error {
    if fault != Nil then fault
    else
      match Execute(view, st)
      case Ok(_) => Nil
      case Err(raw) => raw
  }

  predicate NoFaultBefore(faults: Faults, n: nat) {
    forall i :: 0 <= i < n ==> FaultAt(faults, i) == Nil
  }

  /** Statement k is the first to fail, and this is its raw error. */
  predicate FailsAt(db: Db, program: seq<Insert>, faults: Faults, k: nat, raw: Error) {
    && k < |program| && NoFaultBefore(faults, k + 1)
    && Replay(db, program[..k], NO_FAULTS).Ok?
    && raw == RawError(Replay(db, program[..k], NO_FAULTS).db, program[k], FaultAt(faults, k + 1)) != Nil
  }

  /** What a caller can find in the error of a statement whose raw error is given: a unique
      violation of a meeting insert is ErrSlotTaken, the other mapped codes are their sentinels, and
      anything else keeps what it carries. */
  predicate Finds(st: Insert, raw: Error, target: Error)
    requires target.Sentinel?
  {
    if FirstPg(raw) == PgError(UniqueViolation) then target == if st.InsertMeeting? then ERR_SLOT_TAKEN else ERR_UNIQUE
    else if FirstPg(raw) == PgError(ForeignKeyViolation) then target == ERR_FOREIGN_KEY
    else if FirstPg(raw) == PgError(CheckViolation) then target == ERR_CHECK
    else Is(raw, target)
  }

  lemma StatementErrorTells(st: Insert, raw: Error, target: Error)
    requires raw != Nil && target.Sentinel?
    ensures Is(Reported(st, raw), target) <==> Finds(st, raw, target)
    ensures FirstPg(Reported(st, raw)) == if Classified(raw) then Nil else FirstPg(raw)
  {
    FirstPgIsFirstInPreorder(raw);
    if Mapped(raw) { WrapMapped(raw, target); } else { WrapOther(raw, target); }
  }

  lemma ReplayPrefix(db: Db, program: seq<Insert>, faults: Faults, k: nat)
    requires k <= |program| && NoFaultBefore(faults, k + 1)
    ensures Replay(db, program[..k], faults) == Replay(db, program[..k], NO_FAULTS)
    decreases k
  {
    if k == 0 {
      assert program[..0] == [];
    } else {
      ReplayPrefix(db, program, faults, k - 1);
      ReplayStep(db, program, faults, k - 1);
      ReplayStep(db, program, NO_FAULTS, k - 1);
    }
  }

  /** The error of a transaction lets its caller find exactly what the first failing statement
      makes findable, and the driver error only if its code is not mapped. */
  lemma ErrorTells(db: Db, program: seq<Insert>, faults: Faults, k: nat, raw: Error, target: Error)
    requires FailsAt(db, program, faults, k, raw) && target.Sentinel?
    ensures var (after, err) := InTransaction(db, program, faults);
            && after == db && err != Nil
            && (Is(err, target) <==> Finds(program[k], raw, target))
            && FirstPg(err) == if Classified(raw) then Nil else FirstPg(raw)
  {
    ReplayPrefix(db, program, faults, k);
    ReplayStep(db, program, faults, k);
    ReplayFailsEarly(db, program, faults, k + 1);
    StatementErrorTells(program[k], raw, target);
    ReportedIsAnError(program[k], raw);
  }

  /** BEGIN and COMMIT report their error as it is. */
  lemma FramingErrorTells(db: Db, program: seq<Insert>, faults: Faults)
    ensures FaultAt(faults, 0) != Nil ==> InTransaction(db, program, faults) == (db, FaultAt(faults, 0))
    ensures (NoFaultBefore(faults, |program| + 1) && Replay(db, program, NO_FAULTS).Ok?
             && FaultAt(faults, |program| + 1) != Nil) ==>
              InTransaction(db, program, faults) == (db, FaultAt(faults, |program| + 1))
  {
    if FaultAt(faults, 0) != Nil {
      assert program[..0] == [];
      ReplayFailsEarly(db, program, faults, 0);
    } else if NoFaultBefore(faults, |program| + 1) {
      ReplayPrefix(db, program, faults, |program|);
      assert program[..|program|] == program;
    }
  }

  /** Every failure is one of those: of BEGIN, of a first failing statement, or of COMMIT. */
  lemma EveryErrorHasAPlace(db: Db, program: seq<Insert>, faults: Faults)
    requires InTransaction(db, program, faults).1 != Nil
    ensures || FaultAt(faults, 0) != Nil
            || (exists k: nat, raw :: FailsAt(db, program, faults, k, raw))
            || (NoFaultBefore(faults, |program| + 1) && Replay(db, program, NO_FAULTS).Ok?
                && FaultAt(faults, |program| + 1) != Nil)
  {
    if FaultAt(faults, 0) == Nil {
      var k := FirstTrouble(db, program, faults, 0);
      if k < |program| {
        var view := Replay(db, program[..k], NO_FAULTS).db;
        assert FailsAt(db, program, faults, k, RawError(view, program[k], FaultAt(faults, k + 1)));
      } else {
        assert program[..k] == program;
        ReplayPrefix(db, program, faults, k);
      }
    }
  }

  /** How many statements go through, if the first n do. */
  lemma FirstTrouble(db: Db, program: seq<Insert>, faults: Faults, n: nat) returns (k: nat)
    requires n <= |program| && NoFaultBefore(faults, n + 1) && Replay(db, program[..n], NO_FAULTS).Ok?
    ensures n <= k <= |program| && NoFaultBefore(faults, k + 1) && Replay(db, program[..k], NO_FAULTS).Ok?
    ensures k < |program| ==>
              RawError(Replay(db, program[..k], NO_FAULTS).db, program[k], FaultAt(faults, k + 1)) != Nil
    decreases |program| - n
  {
    k := n;
    if n < |program| && RawError(Replay(db, program[..n], NO_FAULTS).db, program[n], FaultAt(faults, n + 1)) == Nil {
      ReplayStep(db, program, NO_FAULTS, n);
      k := FirstTrouble(db, program, faults, n + 1);
    }
  }

  // ---- Bookings ----

  /** When the error of a failed meeting insert is ErrSlotTaken. */
  predicate MeansTaken(raw: Error) {
    FirstPg(raw) == PgError(UniqueViolation) || CarriesTaken(raw)
  }

  /** The injected error carries the sentinel itself and is not mapped to another. */
  predicate CarriesTaken(raw: Error) {
    !Classified(raw) && Is(raw, ERR_SLOT_TAKEN)
  }

  /** Exactly which failed bookings report ErrSlotTaken, whichever statement fails and how. */
  lemma BookingReportsTaken(db: Db, op: Op, faults: Faults)
    requires op.BookMeeting?
    ensures var (after, err) := InTransaction(db, Program(op), faults);
            var n, slotId := |op.attendees|, op.meeting.timeslotId;
            var booked := exists m :: m in db.meetings && db.meetings[m].timeslotId == slotId;
            var taken := op.meetingId in db.meetings || booked;
            && (FaultAt(faults, 0) != Nil ==> err == FaultAt(faults, 0))
            && (FaultAt(faults, 0) == Nil && FaultAt(faults, 1) != Nil ==>
                  (Is(err, ERR_SLOT_TAKEN) <==> MeansTaken(FaultAt(faults, 1))))
            && (NoFaultBefore(faults, 2) && taken ==> err != Nil && Is(err, ERR_SLOT_TAKEN))
            && (NoFaultBefore(faults, 2) && !taken && slotId !in db.slots ==>
                  err != Nil && !Is(err, ERR_SLOT_TAKEN) && Is(err, ERR_FOREIGN_KEY))
            && (!taken && slotId in db.slots ==>
                  forall k :: 2 <= k < n + 2 && NoFaultBefore(faults, k) && FaultAt(faults, k) != Nil ==>
                    err != Nil && (Is(err, ERR_SLOT_TAKEN) <==> CarriesTaken(FaultAt(faults, k))))
            && (!taken && slotId in db.slots && NoFaultBefore(faults, n + 2) ==> err == FaultAt(faults, n + 2))
            && (err != Nil ==> after == db)
  {
    var n, slotId, program := |op.attendees|, op.meeting.timeslotId, Program(op);
    TransactionIsAtomic(db, program, faults);
    FramingErrorTells(db, program, faults);
    ReplayBooking(db, op, n);
    assert program[..n + 1] == program;
    if m :| m in db.meetings && db.meetings[m].timeslotId == slotId { assert slotId in Booked(db); }
    MeetingInsertTells(db, op, faults);
    if CanBook(db, op.meetingId, slotId) {
      forall k | 2 <= k < n + 2 && NoFaultBefore(faults, k) && FaultAt(faults, k) != Nil
        ensures var err := InTransaction(db, program, faults).1;
                err != Nil && (Is(err, ERR_SLOT_TAKEN) <==> CarriesTaken(FaultAt(faults, k)))
      {
        AttendeeInsertTells(db, op, faults, k - 2);
      }
    }
  }

  lemma MeetingInsertTells(db: Db, op: Op, faults: Faults)
    requires op.BookMeeting?
    ensures var err, slotId := InTransaction(db, Program(op), faults).1, op.meeting.timeslotId;
            var taken := op.meetingId in db.meetings || slotId in Booked(db);
            && (FaultAt(faults, 0) == Nil && FaultAt(faults, 1) != Nil ==>
                  err != Nil && (Is(err, ERR_SLOT_TAKEN) <==> MeansTaken(FaultAt(faults, 1))))
            && (NoFaultBefore(faults, 2) && taken ==> err != Nil && Is(err, ERR_SLOT_TAKEN))
            && (NoFaultBefore(faults, 2) && !taken && slotId !in db.slots ==>
                  err != Nil && !Is(err, ERR_SLOT_TAKEN) && Is(err, ERR_FOREIGN_KEY))
  {
    var program := Program(op);
    assert program[..0] == [];
    var raw := RawError(db, program[0], FaultAt(faults, 1));
    if FaultAt(faults, 0) == Nil && raw != Nil {
      assert FailsAt(db, program, faults, 0, raw);
      ErrorTells(db, program, faults, 0, raw, ERR_SLOT_TAKEN);
      ErrorTells(db, program, faults, 0, raw, ERR_FOREIGN_KEY);
    }
  }

  lemma AttendeeInsertTells(db: Db, op: Op, faults: Faults, k: nat)
    requires op.BookMeeting? && k < |op.attendees| && CanBook(db, op.meetingId, op.meeting.timeslotId)
    requires NoFaultBefore(faults, k + 2) && FaultAt(faults, k + 2) != Nil
    ensures var err := InTransaction(db, Program(op), faults).1;
            err != Nil && (Is(err, ERR_SLOT_TAKEN) <==> CarriesTaken(FaultAt(faults, k + 2)))
  {
    ReplayBooking(db, op, k);
    assert FailsAt(db, Program(op), faults, k + 1, FaultAt(faults, k + 2));
    ErrorTells(db, Program(op), faults, k + 1, FaultAt(faults, k + 2), ERR_SLOT_TAKEN);
  }

  // ---- Offers ----

  predicate NewIds(db: Db, op: Op) {
    forall i :: 0 <= i < |Offered(op)| ==> Offered(op)[i].id !in db.slots
  }

  /** The n-th row is the first that cannot be inserted. */
  lemma RefusedRow(db: Db, op: Op, n: nat, code: SqlState)
    requires op.CreateAvailability? && n < |Offered(op)| && Insertable(db, Offered(op)[..n])
    requires var view := db.(slots := db.slots + RowMap(Offered(op)[..n]));
             Execute(view, InsertSlot(Offered(op)[n].id, Offered(op)[n].slot)) == Err(PgError(code))
    ensures Serial(db, op) == (db, Failed(WrapPostgresError(PgError(code))))
  {
    ReplayOffer(db, op, n);
    ReplayStep(db, Program(op), NO_FAULTS, n);
    assert Program(op)[n] == InsertSlot(Offered(op)[n].id, Offered(op)[n].slot);
    ReplayFailsEarly(db, Program(op), NO_FAULTS, n + 1);
  }

  /** Between a position where the property holds and one where it does not, it ends somewhere. */
  lemma {:induction false} LastGood(good: nat -> bool, n: nat, m: nat) returns (k: nat)
    requires n < m && good(n) && !good(m)
    ensures n <= k < m && good(k) && !good(k + 1)
    decreases m - n
  {
    if good(n + 1) {
      k := LastGood(good, n + 1, m);
    } else {
      k := n;
    }
  }

  lemma FirstRefusedRow(db: Db, op: Op) returns (k: nat)
    requires op.CreateAvailability? && !Insertable(db, Offered(op))
    ensures k < |Offered(op)| && Insertable(db, Offered(op)[..k]) && !Insertable(db, Offered(op)[..k + 1])
  {
    var rows := Offered(op);
    assert rows[..0] == [] && rows[..|rows|] == rows;
    k := LastGood((i: nat) => i <= |rows| && Insertable(db, rows[..i]), 0, |rows|);
  }

  /** An offer with a duration in range fails on the user if that user is missing and some window
      holds a slot, on the key if an id is not new, and not otherwise. */
  lemma OfferErrorsExactly(db: Db, op: Op)
    requires op.CreateAvailability? && 10 <= op.durationMins <= 60
    ensures var outcome := Serial(db, op).1;
            var holds := exists i :: 0 <= i < |op.windows| && Holds(op.windows[i], op.durationMins);
            && outcome in {Done, Failed(Wrapped([ERR_FOREIGN_KEY])), Failed(Wrapped([ERR_UNIQUE]))}
            && (DistinctIds(Offered(op)) && NewIds(db, op) ==>
                  && (outcome == Failed(Wrapped([ERR_FOREIGN_KEY])) <==> op.userId !in db.users && holds)
                  && outcome != Failed(Wrapped([ERR_UNIQUE])))
            && (op.userId in db.users ==>
                  (outcome == Failed(Wrapped([ERR_UNIQUE])) <==> !(DistinctIds(Offered(op)) && NewIds(db, op))))
  {
    OfferOutcome(db, op);
    OfferedRowsAreValid(op);
    HoldsMeansPlanned(op);
    if !Insertable(db, Offered(op)) {
      var k := FirstRefusedRow(db, op);
      OfferRefusedAt(db, op, k);
    }
  }

  /** At least one slot of that duration fits into the window. */
  predicate Holds(w: Window, durationMins: int) {
    w.endAt - w.startAt >= durationMins * 60_000_000_000
  }

  lemma {:induction false} PlanIsEmptyExactly(userId: Id, windows: seq<Window>, durationMins: Int32)
    requires InRange(durationMins)
    ensures Plan(userId, windows, durationMins) == [] <==>
            forall i :: 0 <= i < |windows| ==> !Holds(windows[i], durationMins)
  {
    LengthInRange(durationMins);
    if windows != [] {
      PlanIsEmptyExactly(userId, windows[1..], durationMins);
      assert forall i :: 1 <= i < |windows| ==> windows[i] == windows[1..][i - 1];
    }
  }

  lemma HoldsMeansPlanned(op: Op)
    requires op.CreateAvailability? && InRange(op.durationMins)
    ensures Offered(op) != [] <==> exists i :: 0 <= i < |op.windows| && Holds(op.windows[i], op.durationMins)
  {
    PlanIsEmptyExactly(op.userId, op.windows, op.durationMins);
  }

  lemma OfferedRowsAreValid(op: Op)
    requires op.CreateAvailability? && InRange(op.durationMins)
    ensures forall i :: 0 <= i < |Offered(op)| ==>
              Checks(Offered(op)[i].slot) && Offered(op)[i].slot.userId == op.userId
  {
    forall i | 0 <= i < |Offered(op)| ensures Checks(Offered(op)[i].slot) && Offered(op)[i].slot.userId == op.userId {
      PlannedRow(op.userId, op.windows, op.durationMins, i);
    }
  }

  lemma OfferRefusedAt(db: Db, op: Op, k: nat)
    requires op.CreateAvailability? && InRange(op.durationMins) && k < |Offered(op)|
    requires Insertable(db, Offered(op)[..k]) && !Insertable(db, Offered(op)[..k + 1])
    ensures var unique := Offered(op)[k].id in db.slots || Offered(op)[k].id in RowMap(Offered(op)[..k]);
            && Serial(db, op).1 == Failed(Wrapped([if unique then ERR_UNIQUE else ERR_FOREIGN_KEY]))
            && (unique ==> !(DistinctIds(Offered(op)) && NewIds(db, op)))
            && (!unique ==> op.userId !in db.users)
  {
    var rows := Offered(op);
    OfferedRowsAreValid(op);
    InsertableStep(db, rows, k);
    RowMapKeys(rows[..k]);
    var unique := rows[k].id in db.slots || rows[k].id in RowMap(rows[..k]);
    RefusedRow(db, op, k, if unique then UniqueViolation else ForeignKeyViolation);
    if rows[k].id in RowMap(rows[..k]) {
      var i :| 0 <= i < |rows[..k]| && rows[..k][i].id == rows[k].id;
      assert rows[i].id == rows[k].id;
    }
  }

  /** With a duration out of range an offer fails on a CHECK if some window is not shorter than the
      wrapped slot length, and otherwise creates nothing. */
  lemma OutOfRangeOfferExactly(db: Db, op: Op, length: int)
    requires op.CreateAvailability? && !(10 <= op.durationMins <= 60)
    requires -9223372036854775808 <= length < 9223372036854775808
    requires (op.durationMins * 60_000_000_000 - length) % 18446744073709551616 == 0
    ensures Serial(db, op) ==
            (db, if exists i :: 0 <= i < |op.windows| && op.windows[i].startAt + length <= op.windows[i].endAt
                 then Failed(Wrapped([ERR_CHECK])) else Done)
  {
    WrapsAround(op.durationMins * MINUTE, length);
    OutOfRangePlan(op.userId, op.windows, op.durationMins, length);
    OfferOutcome(db, op);
    if Offered(op) != [] {
      PlannedRow(op.userId, op.windows, op.durationMins, 0);
      assert Offered(op)[..0] == [];
      RefusedRow(db, op, 0, CheckViolation);
    } else {
      assert Replay(db, Program(op), NO_FAULTS) == Ok(db);
    }
  }

  lemma {:induction false} OutOfRangePlan(userId: Id, windows: seq<Window>, durationMins: Int32, length: int)
    requires !InRange(durationMins) && SlotLength(durationMins) == length
    ensures Plan(userId, windows, durationMins) != [] <==>
            exists i :: 0 <= i < |windows| && windows[i].startAt + length <= windows[i].endAt
  {
    if windows != [] {
      OutOfRangePlan(userId, windows[1..], durationMins, length);
      assert forall i :: 1 <= i < |windows| ==> windows[i] == windows[1..][i - 1];
    }
  }
}
