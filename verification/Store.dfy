/** The data-access layer: statements on tables held in fields, and the two transactions
    (internal/storage/store.go, internal/storage/query.sql.gen.go). */
module Store {
  import opened GoErrors
  import opened Schema
  import opened Slicing
  import opened Transactions

  /** The statement turned the tables `before` into `after` and returned `err`. */
  ghost predicate Executed(before: Db, st: Insert, fault: Error, after: Db, err: Error) {
    if fault != Nil then err == fault && after == before
    else
      match Execute(before, st)
      case Ok(changed) => err == Nil && after == changed
      case Err(raw) => err == raw && after == before
  }

  lemma StatementReplays(db: Db, program: seq<Insert>, faults: Faults, k: nat, view: Db, after: Db, err: Error)
    requires k < |program| && Replay(db, program[..k], faults) == Ok(view)
    requires Executed(view, program[k], FaultAt(faults, k + 1), after, err)
    ensures err == Nil ==> Replay(db, program[..k + 1], faults) == Ok(after)
    ensures err != Nil ==> Replay(db, program, faults) == Err(Reported(program[k], err))
  {
    ReplayStep(db, program, faults, k);
    if err != Nil { ReplayFailsEarly(db, program, faults, k + 1); }
  }

  lemma BeginReplays(db: Db, program: seq<Insert>, faults: Faults)
    ensures FaultAt(faults, 0) == Nil ==> Replay(db, program[..0], faults) == Ok(db)
    ensures FaultAt(faults, 0) != Nil ==> InTransaction(db, program, faults) == (db, FaultAt(faults, 0))
  {
    if FaultAt(faults, 0) != Nil { ReplayFailsEarly(db, program, faults, 0); }
  }

  lemma CommitReplays(db: Db, program: seq<Insert>, faults: Faults, view: Db)
    requires Replay(db, program[..|program|], faults) == Ok(view)
    ensures var fault := FaultAt(faults, |program| + 1);
            InTransaction(db, program, faults) == if fault == Nil then (view, Nil) else (db, fault)
  {
    assert program[..|program|] == program;
  }

  /** The generated queries, bound to the tables they change: the committed ones for the pool, a
      private view for a transaction. `fault` is Nil unless the driver fails the statement. */
  class Queries {
    var users: map<Id, string>
    var slots: map<Id, Slot>
    var meetings: map<Id, Meeting>
    var participants: set<Participant>

    function Contents(): Db
      reads this
    {
      Db(users, slots, meetings, participants)
    }

    constructor (db: Db)
      ensures Contents() == db
    {
      users, slots, meetings, participants := db.users, db.slots, db.meetings, db.participants;
    }

    method CreateTimeslot(id: Id, row: Slot, fault: Error) returns (err: Error)
      modifies this
      ensures Executed(old(Contents()), InsertSlot(id, row), fault, Contents(), err)
    {
      if fault != Nil {
        return fault;
      }
      if !Checks(row) {
        return PgError(CheckViolation);
      }
      if id in slots {
        return PgError(UniqueViolation);
      }
      if row.userId !in users {
        return PgError(ForeignKeyViolation);
      }
      slots := slots[id := row];
      return Nil;
    }

    method CreateMeeting(id: Id, row: Meeting, fault: Error) returns (err: Error)
      modifies this
      ensures Executed(old(Contents()), InsertMeeting(id, row), fault, Contents(), err)
    {
      if fault != Nil {
        return fault;
      }
      if id in meetings || row.timeslotId in Booked(Contents()) {
        return PgError(UniqueViolation);
      }
      if row.timeslotId !in slots {
        return PgError(ForeignKeyViolation);
      }
      meetings := meetings[id := row];
      return Nil;
    }

    method AddMeetingParticipant(row: Participant, fault: Error) returns (err: Error)
      modifies this
      ensures Executed(old(Contents()), InsertParticipant(row), fault, Contents(), err)
    {
      if fault != Nil {
        return fault;
      }
      if row in participants {
        return Nil;
      }
      if row.meetingId !in meetings {
        return PgError(ForeignKeyViolation);
      }
      participants := participants + {row};
      return Nil;
    }

    method DeleteTimeslot(id: Id, fault: Error) returns (count: nat, err: Error)
      modifies this
      ensures fault != Nil ==> count == 0 && err == fault && Contents() == old(Contents())
      ensures fault == Nil ==> err == Nil && (Contents(), Rows(count)) == Serial(old(Contents()), Delete(id))
      ensures Contents() == old(Contents()).(slots := old(slots) - if count == 1 then {id} else {})
    {
      if fault != Nil {
        return 0, fault;
      }
      if id !in slots || id in Booked(Contents()) {
        return 0, Nil;
      }
      GuardedDeleteRemovesOnlyTheSlot(Contents(), id);
      ghost var before := Contents();
      var gone := set m | m in meetings && meetings[m].timeslotId == id;
      participants := set p | p in participants && p.meetingId !in gone;
      meetings := meetings - gone;
      slots := slots - {id};
      assert Contents() == Cascade(before, id);
      return 1, Nil;
    }

    method UpdateTimeslot(id: Id, startAt: int, endAt: int, minutes: Int32, fault: Error)
      returns (count: nat, err: Error)
      modifies this`slots
      ensures fault != Nil ==> count == 0 && err == fault && Contents() == old(Contents())
      ensures fault == Nil ==>
                var (after, outcome) := Serial(old(Contents()), Update(id, startAt, endAt, minutes));
                Contents() == after && outcome == if err == Nil then Rows(count) else Failed(err)
    {
      if fault != Nil {
        return 0, fault;
      }
      if id !in slots || id in Booked(Contents()) {
        return 0, Nil;
      }
      var row := slots[id].(startAt := startAt, endAt := endAt, durationMins := minutes);
      if !Checks(row) {
        return 0, PgError(CheckViolation);
      }
      slots := slots[id := row];
      return 1, Nil;
    }

    method CreateUser(id: Id, name: string, fault: Error) returns (err: Error)
      modifies this`users
      ensures fault != Nil ==> err == fault && Contents() == old(Contents())
      ensures fault == Nil ==>
                (Contents(), if err == Nil then Done else Failed(err)) == Serial(old(Contents()), AddUser(id, name))
    {
      if fault != Nil {
        return fault;
      }
      if id in users {
        return PgError(UniqueViolation);
      }
      users := users[id := name];
      return Nil;
    }

    /** COMMIT of a transaction's view. */
    method Publish(view: Queries, fault: Error) returns (err: Error)
      modifies this
      ensures err == fault
      ensures Contents() == if fault == Nil then old(view.Contents()) else old(Contents())
    {
      if fault == Nil {
        users, slots, meetings, participants := view.users, view.slots, view.meetings, view.participants;
      }
      return fault;
    }
  }

  class Store {
    const pool: Queries

    constructor (pool: Queries)
      ensures this.pool == pool
    {
      this.pool := pool;
    }

    /** The closure CreateAvailability hands to withTx. The loops over windows and slots insert
        exactly the planned rows, in order, whatever the int32 duration is, and terminate. */
    method InsertSlices(q: Queries, userId: Id, windows: seq<Window>, durationMins: Int32, ids: seq<Id>, faults: Faults)
      returns (created: seq<Row>, err: Error)
      requires FaultAt(faults, 0) == Nil
      modifies q
      ensures var op, before := Op.CreateAvailability(userId, windows, durationMins, ids), old(q.Contents());
              && (err == Nil ==> created == Offered(op) && Replay(before, Program(op), faults) == Ok(q.Contents()))
              && (err != Nil ==> Replay(before, Program(op), faults) == Err(err))
    {
      ghost var op, before := Op.CreateAvailability(userId, windows, durationMins, ids), q.Contents();
      var slot := SlotLength(durationMins);
      created := [];
      NothingAttempted(op, before, faults);
      ghost var view := before;
      for i := 0 to |windows|
        invariant q.Contents() == view && BetweenWindows(op, before, faults, created, i, view)
      {
        var w := windows[i];
        var startAt := w.startAt;
        WindowOpens(op, before, faults, created, i, view);
        while startAt + slot <= w.endAt
          invariant q.Contents() == view && WithinWindow(op, before, faults, created, i, startAt, view)
          decreases w.endAt - startAt
        {
          var next := startAt + slot;
          var id, row := IdAt(ids, |created|), Slot(userId, startAt, next, durationMins);
          err := q.CreateTimeslot(id, row, FaultAt(faults, |created| + 1));
          RowAttempted(op, before, faults, created, i, row, view, q.Contents(), err);
          if err != Nil {
            err := WrapPostgresError(err);
            return;
          }
          view := q.Contents();
          created := created + [Row(id, row)];
          startAt := next;
        }
        WindowCloses(op, before, faults, created, i, startAt, view);
      }
      err := Nil;
      AllAttempted(op, before, faults, created, view);
    }

    method CreateAvailability(userId: Id, windows: seq<Window>, durationMins: Int32, ids: seq<Id>, faults: Faults)
      returns (created: seq<Row>, err: Error)
      modifies pool
      ensures var op := Op.CreateAvailability(userId, windows, durationMins, ids);
              && (pool.Contents(), err) == InTransaction(old(pool.Contents()), Program(op), faults)
              && created == if err == Nil then Offered(op) else []
    {
      ghost var op, before := Op.CreateAvailability(userId, windows, durationMins, ids), pool.Contents();
      BeginReplays(before, Program(op), faults);
      if FaultAt(faults, 0) != Nil {
        return [], FaultAt(faults, 0);
      }
      var tx := new Queries(pool.Contents());
      created, err := InsertSlices(tx, userId, windows, durationMins, ids, faults);
      if err != Nil {
        return [], err;
      }
      err := pool.Publish(tx, FaultAt(faults, |created| + 1));
      if err != Nil {
        created := [];
      }
    }

    /** The booking loop is the transaction of its program, with the error of the first insert
        mapped to ErrSlotTaken when it is a unique violation. */
    method BookMeeting(id: Id, arg: Meeting, attendees: seq<string>, faults: Faults) returns (meetingId: Id, err: Error)
      modifies pool
      ensures var op := Op.BookMeeting(id, arg, attendees);
              (pool.Contents(), err) == InTransaction(old(pool.Contents()), Program(op), faults)
      ensures err == Nil ==> meetingId == id
    {
      ghost var op := Op.BookMeeting(id, arg, attendees);
      ghost var program, before := Program(op), pool.Contents();
      BeginReplays(before, program, faults);
      if FaultAt(faults, 0) != Nil {
        return 0, FaultAt(faults, 0);
      }
      var tx := new Queries(pool.Contents());
      err := tx.CreateMeeting(id, arg, FaultAt(faults, 1));
      StatementReplays(before, program, faults, 0, before, tx.Contents(), err);
      if err != Nil {
        if IsUniqueConstraintErr(err) {
          return 0, ERR_SLOT_TAKEN;
        }
        return 0, WrapPostgresError(err);
      }
      for i := 0 to |attendees|
        invariant fresh(tx) && pool.Contents() == before
        invariant Replay(before, program[..i + 1], faults) == Ok(tx.Contents())
      {
        ghost var view := tx.Contents();
        assert program[i + 1] == InsertParticipant(Participant(id, attendees[i]));
        err := tx.AddMeetingParticipant(Participant(id, attendees[i]), FaultAt(faults, i + 2));
        StatementReplays(before, program, faults, i + 1, view, tx.Contents(), err);
        if err != Nil {
          return 0, WrapPostgresError(err);
        }
      }
      meetingId := id;
      CommitReplays(before, program, faults, tx.Contents());
      err := pool.Publish(tx, FaultAt(faults, |attendees| + 2));
    }
  }

  // ---- Progress of the slicing loops ----

  /** `created` are the first rows of the offer and `ahead` what is still planned. */
  ghost predicate Attempted(op: Op, created: seq<Row>, ahead: seq<Slot>)
    requires op.CreateAvailability?
  {
    var plan := Plan(op.userId, op.windows, op.durationMins);
    && |plan| == |created| + |ahead|
    && created == Offered(op)[..|created|]
    && ahead == plan[|created|..]
  }

  /** ... and `view` is what the transaction has made of the tables `db`. */
  ghost predicate Underway(op: Op, db: Db, faults: Faults, created: seq<Row>, ahead: seq<Slot>, view: Db)
    requires op.CreateAvailability?
  {
    Attempted(op, created, ahead) && Replay(db, Program(op)[..|created|], faults) == Ok(view)
  }

  ghost predicate BetweenWindows(op: Op, db: Db, faults: Faults, created: seq<Row>, i: nat, view: Db)
    requires op.CreateAvailability? && i <= |op.windows|
  {
    Underway(op, db, faults, created, Plan(op.userId, op.windows[i..], op.durationMins), view)
  }

  ghost predicate WithinWindow(op: Op, db: Db, faults: Faults, created: seq<Row>, i: nat, startAt: int, view: Db)
    requires op.CreateAvailability? && i < |op.windows|
  {
    Underway(op, db, faults, created,
             WindowRows(op.userId, startAt, op.windows[i].endAt, op.durationMins)
             + Plan(op.userId, op.windows[i + 1..], op.durationMins),
             view)
  }

  lemma NothingAttempted(op: Op, db: Db, faults: Faults)
    requires op.CreateAvailability? && FaultAt(faults, 0) == Nil
    ensures BetweenWindows(op, db, faults, [], 0, db)
  {
  }

  lemma WindowOpens(op: Op, db: Db, faults: Faults, created: seq<Row>, i: nat, view: Db)
    requires op.CreateAvailability? && i < |op.windows| && BetweenWindows(op, db, faults, created, i, view)
    ensures WithinWindow(op, db, faults, created, i, op.windows[i].startAt, view)
  {
  }

  lemma WindowCloses(op: Op, db: Db, faults: Faults, created: seq<Row>, i: nat, startAt: int, view: Db)
    requires op.CreateAvailability? && i < |op.windows| && WithinWindow(op, db, faults, created, i, startAt, view)
    requires startAt + SlotLength(op.durationMins) > op.windows[i].endAt
    ensures BetweenWindows(op, db, faults, created, i + 1, view)
  {
  }

  lemma NextAttempt(op: Op, created: seq<Row>, row: Slot, ahead: seq<Slot>)
    requires op.CreateAvailability? && Attempted(op, created, ahead) && ahead != [] && ahead[0] == row
    ensures |created| < |Program(op)| && Program(op)[|created|] == InsertSlot(IdAt(op.ids, |created|), row)
    ensures Attempted(op, created + [Row(IdAt(op.ids, |created|), row)], ahead[1..])
  {
  }

  lemma WindowAhead(userId: Id, row: Slot, endAt: int, durationMins: Int32, later: seq<Slot>, ahead: seq<Slot>)
    requires row == Slot(userId, row.startAt, row.startAt + SlotLength(durationMins), durationMins)
    requires row.endAt <= endAt
    requires ahead == WindowRows(userId, row.startAt, endAt, durationMins) + later
    ensures ahead != [] && ahead[0] == row
    ensures Checks(row) ==> ahead[1..] == WindowRows(userId, row.endAt, endAt, durationMins) + later
  {
  }

  lemma ExecutedChecks(view: Db, id: Id, row: Slot, fault: Error, after: Db)
    requires Executed(view, InsertSlot(id, row), fault, after, Nil)
    ensures Checks(row)
  {
  }

  lemma UnderwayNext(op: Op, db: Db, faults: Faults, created: seq<Row>, ahead: seq<Slot>, view: Db,
                     after: Db, err: Error)
    requires op.CreateAvailability? && Underway(op, db, faults, created, ahead, view) && ahead != []
    requires Executed(view, InsertSlot(IdAt(op.ids, |created|), ahead[0]), FaultAt(faults, |created| + 1), after, err)
    ensures var next := Row(IdAt(op.ids, |created|), ahead[0]);
            err == Nil ==> Underway(op, db, faults, created + [next], ahead[1..], after)
    ensures err != Nil ==> Replay(db, Program(op), faults) == Err(WrapPostgresError(err))
  {
    var program, k := Program(op), |created|;
    NextAttempt(op, created, ahead[0], ahead);
    assert program[k] == InsertSlot(IdAt(op.ids, k), ahead[0]);
    StatementReplays(db, program, faults, k, view, after, err);
    assert Reported(program[k], err) == WrapPostgresError(err);
  }

  /** A row that enters satisfies the CHECKs, so the loop goes on with a positive slot length; one
      that does not ends the transaction. */
  lemma RowAttempted(op: Op, db: Db, faults: Faults, created: seq<Row>, i: nat, row: Slot, view: Db,
                     after: Db, err: Error)
    requires op.CreateAvailability? && i < |op.windows| && WithinWindow(op, db, faults, created, i, row.startAt, view)
    requires row == Slot(op.userId, row.startAt, row.startAt + SlotLength(op.durationMins), op.durationMins)
    requires row.endAt <= op.windows[i].endAt
    requires Executed(view, InsertSlot(IdAt(op.ids, |created|), row), FaultAt(faults, |created| + 1), after, err)
    ensures err == Nil ==> row.endAt > row.startAt
    ensures var next := Row(IdAt(op.ids, |created|), row);
            err == Nil ==> WithinWindow(op, db, faults, created + [next], i, row.endAt, after)
    ensures err != Nil ==>
            Replay(db, Program(op), faults) == Err(WrapPostgresError(err)) && WrapPostgresError(err) != Nil
  {
    var later := Plan(op.userId, op.windows[i + 1..], op.durationMins);
    var ahead := WindowRows(op.userId, row.startAt, op.windows[i].endAt, op.durationMins) + later;
    WindowAhead(op.userId, row, op.windows[i].endAt, op.durationMins, later, ahead);
    UnderwayNext(op, db, faults, created, ahead, view, after, err);
    if err != Nil {
      WrapMappedOrOther(err);
    } else {
      ExecutedChecks(view, IdAt(op.ids, |created|), row, FaultAt(faults, |created| + 1), after);
    }
  }

  lemma AllAttempted(op: Op, db: Db, faults: Faults, created: seq<Row>, view: Db)
    requires op.CreateAvailability? && BetweenWindows(op, db, faults, created, |op.windows|, view)
    ensures created == Offered(op) && Replay(db, Program(op), faults) == Ok(view)
  {
    assert Program(op)[..|created|] == Program(op);
  }
}
