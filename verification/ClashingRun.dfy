/** A run in which everything succeeds and two meetings on one calendar overlap. */
module ClashingRun {
  import opened Schema
  import opened Slicing
  import opened Transactions
  import opened Protocol
  import opened Serializability
  import opened Progress
  import opened Reachability
  import opened Guarantees
  import opened Requests
  import opened Listing

  /** The events of a transaction of one statement. */
  function Both(t: nat): seq<Event> {
    [Statement(t, {}), Commit(t)]
  }

  lemma OnwardHappens(ops: seq<Op>, db: Db, run: seq<Event>, s: State, t: nat)
    requires Valid(db) && FreshIds(db, ops) && LeadsTo(ops, db, run, s)
    requires |s.calls| == |ops| && t < |ops| && s.calls[t].Active? && QuietBut(s, t)
    ensures var e := Onward(ops, s, t);
            && Enabled(ops, s, e) && LeadsTo(ops, db, run + [e], Next(ops, s, e))
            && var s' := Next(ops, s, e);
               if s'.calls[t].Ended? then s' == Serially(ops, s, t)
               else |s'.calls| == |ops| && QuietBut(s', t) && Serially(ops, s', t) == Serially(ops, s, t)
  {
    ReachableInv(ops, db, run);
    OnwardIsEnabled(ops, s, t);
    OnwardIsSerial(ops, s, t);
    AppendEvent(ops, Initial(db, ops), run, Onward(ops, s, t));
  }

  lemma StatementAndCommit(ops: seq<Op>, db: Db, run: seq<Event>, s: State, t: nat)
    requires Valid(db) && FreshIds(db, ops) && LeadsTo(ops, db, run, s) && Quiet(s) && |s.calls| == |ops| && t < |ops|
    requires s.calls[t] == Active(0, NOTHING) && ops[t].Transactional() && |Program(ops[t])| == 1
    requires Serial(s.db, ops[t]).1 == Done
    ensures LeadsTo(ops, db, run + Both(t), Serially(ops, s, t))
  {
    OnwardHappens(ops, db, run, s, t);
    var middle := Next(ops, s, Statement(t, {}));
    CommitHappens(ops, db, run + [Statement(t, {})], middle, t);
    assert run + [Statement(t, {})] + [Commit(t)] == run + Both(t);
  }

  lemma CommitHappens(ops: seq<Op>, db: Db, run: seq<Event>, s: State, t: nat)
    requires Valid(db) && FreshIds(db, ops) && LeadsTo(ops, db, run, s) && QuietBut(s, t) && |s.calls| == |ops|
    requires t < |ops| && s.calls[t].Active? && ops[t].Transactional() && s.calls[t].pc == |Program(ops[t])|
    ensures LeadsTo(ops, db, run + [Commit(t)], Serially(ops, s, t))
  {
    OnwardHappens(ops, db, run, s, t);
  }

  const HALF_HOUR := 30 * MINUTE

  /** An offer of one window of half an hour, as one slot. */
  function HalfHour(startAt: int, id: Id): Op {
    Op.CreateAvailability(1, [Window(startAt, startAt + HALF_HOUR)], 30, [id])
  }

  lemma HalfHourIsOneSlot(startAt: int, id: Id)
    ensures Offered(HalfHour(startAt, id)) == [Row(id, Slot(1, startAt, startAt + HALF_HOUR, 30))]
  {
    LengthInRange(30);
    WindowCount(1, startAt, startAt + HALF_HOUR, 30);
    WindowRowsAt(1, startAt, startAt + HALF_HOUR, 30);
    assert Plan(1, HalfHour(startAt, id).windows[1..], 30) == [];
  }

  lemma HalfHourOffered(ops: seq<Op>, db: Db, run: seq<Event>, s: State, t: nat, startAt: int, id: Id)
    requires Valid(db) && FreshIds(db, ops) && LeadsTo(ops, db, run, s) && Quiet(s) && |s.calls| == |ops| && t < |ops|
    requires s.calls[t] == Active(0, NOTHING) && ops[t] == HalfHour(startAt, id) && id !in s.db.slots && 1 in s.db.users
    ensures LeadsTo(ops, db, run + Both(t), Serially(ops, s, t))
    ensures Serially(ops, s, t) == State(s.db.(slots := s.db.slots[id := Slot(1, startAt, startAt + HALF_HOUR, 30)]),
                                         s.calls[t := Ended(Done)])
  {
    HalfHourIsOneSlot(startAt, id);
    OfferOutcome(s.db, ops[t]);
    var row := Slot(1, startAt, startAt + HALF_HOUR, 30);
    assert RowMap([]) == map[] && RowMap([Row(id, row)]) == map[id := row];
    assert s.db.slots + map[id := row] == s.db.slots[id := row];
    StatementAndCommit(ops, db, run, s, t);
  }

  lemma UninvitedBooked(ops: seq<Op>, db: Db, run: seq<Event>, s: State, t: nat)
    requires Valid(db) && FreshIds(db, ops) && LeadsTo(ops, db, run, s) && Quiet(s) && |s.calls| == |ops| && t < |ops|
    requires s.calls[t] == Active(0, NOTHING) && ops[t].BookMeeting? && ops[t].attendees == []
    requires CanBook(s.db, ops[t].meetingId, ops[t].meeting.timeslotId)
    ensures LeadsTo(ops, db, run + Both(t), Serially(ops, s, t))
    ensures Serially(ops, s, t) == State(s.db.(meetings := s.db.meetings[ops[t].meetingId := ops[t].meeting]),
                                         s.calls[t := Ended(Done)])
  {
    BookingOutcome(s.db, ops[t]);
    assert s.db.participants + Invitations(ops[t].meetingId, []) == s.db.participants;
    StatementAndCommit(ops, db, run, s, t);
  }

  const EARLY := Slot(1, 0, HALF_HOUR, 30)
  const LATE := Slot(1, 15 * MINUTE, 15 * MINUTE + HALF_HOUR, 30)
  const REVIEW := Meeting(6, "Review", "", "")
  const CLASHING := [HalfHour(0, 5), HalfHour(15 * MINUTE, 6), BookMeeting(7, STANDUP, []), BookMeeting(8, REVIEW, [])]

  /** The state after the first k calls of the example. */
  function ClashState(k: nat): State {
    var slots := if k == 0 then map[] else if k == 1 then map[5 := EARLY] else map[5 := EARLY, 6 := LATE];
    var meetings := if k <= 2 then map[] else if k == 3 then map[7 := STANDUP] else map[7 := STANDUP, 8 := REVIEW];
    State(Db(map[1 := "alice"], slots, meetings, {}),
          seq(4, t => if t < k then Ended(Done) else Active(0, NOTHING)))
  }

  lemma ClashStarts(db: Db)
    requires db == ClashState(0).db
    ensures Valid(db) && FreshIds(db, CLASHING) && LeadsTo(CLASHING, db, [], ClashState(0))
  {
    ClashIdsAreFresh(db);
    assert Initial(db, CLASHING) == ClashState(0);
  }

  lemma ClashIdsAreFresh(db: Db)
    requires db.slots == map[]
    ensures FreshIds(db, CLASHING)
  {
    HalfHourIsOneSlot(0, 5);
    HalfHourIsOneSlot(15 * MINUTE, 6);
    DistinctRowsAreFresh(db, CLASHING, 5, EARLY, 6, LATE);
  }

  lemma DistinctRowsAreFresh(db: Db, ops: seq<Op>, a: Id, x: Slot, b: Id, y: Slot)
    requires db.slots == map[] && a != b && |ops| == 4
    requires Offered(ops[0]) == [Row(a, x)] && Offered(ops[1]) == [Row(b, y)]
    requires Offered(ops[2]) == [] && Offered(ops[3]) == []
    ensures FreshIds(db, ops)
  {
    forall t | 0 <= t < |ops| ensures DistinctIds(Offered(ops[t])) && UnusedIds(db, ops[t]) {
      assert |Offered(ops[t])| <= 1;
    }
    forall t, u, i, j | 0 <= t < u < |ops| && 0 <= i < |Offered(ops[t])| && 0 <= j < |Offered(ops[u])|
      ensures Offered(ops[t])[i].id != Offered(ops[u])[j].id
    {
      assert t == 0 && u == 1;
    }
  }

  lemma ClashOffers(db: Db, run: seq<Event>, t: nat)
    requires t < 2 && Valid(db) && FreshIds(db, CLASHING) && LeadsTo(CLASHING, db, run, ClashState(t))
    ensures LeadsTo(CLASHING, db, run + Both(t), ClashState(t + 1))
  {
    var startAt, id := if t == 0 then 0 else 15 * MINUTE, if t == 0 then 5 else 6;
    ClashStateOffered(t, startAt, id);
    HalfHourOffered(CLASHING, db, run, ClashState(t), t, startAt, id);
  }

  lemma ClashStateOffered(t: nat, startAt: int, id: Id)
    requires t < 2 && startAt == (if t == 0 then 0 else 15 * MINUTE) && id == if t == 0 then 5 else 6
    ensures var s := ClashState(t);
            ClashState(t + 1) == State(s.db.(slots := s.db.slots[id := Slot(1, startAt, startAt + HALF_HOUR, 30)]),
                                       s.calls[t := Ended(Done)])
  {
  }

  lemma ClashBooks(db: Db, run: seq<Event>, t: nat)
    requires 2 <= t < 4 && Valid(db) && FreshIds(db, CLASHING) && LeadsTo(CLASHING, db, run, ClashState(t))
    ensures LeadsTo(CLASHING, db, run + Both(t), ClashState(t + 1))
  {
    ClashStateBooked(t);
    UninvitedBooked(CLASHING, db, run, ClashState(t), t);
  }

  lemma ClashStateBooked(t: nat)
    requires 2 <= t < 4
    ensures var s, op := ClashState(t), CLASHING[t];
            && CanBook(s.db, op.meetingId, op.meeting.timeslotId)
            && ClashState(t + 1) == State(s.db.(meetings := s.db.meetings[op.meetingId := op.meeting]),
                                          s.calls[t := Ended(Done)])
  {
  }

  lemma ClashOverlaps(db: Db)
    requires db == ClashState(4).db
    ensures OnCalendar(db, 1, 7) && OnCalendar(db, 1, 8)
    ensures var view := CalendarView(db, 1);
            view[7].startAt < view[8].startAt < view[7].endAt < view[8].endAt
  {
  }

  /** The calls one after the other, in order. */
  function InTurn(k: nat): seq<Event> {
    if k == 0 then [] else InTurn(k - 1) + Both(k - 1)
  }

  lemma {:induction false} ClashReached(db: Db, k: nat)
    requires db == ClashState(0).db && k <= 4
    ensures Valid(db) && FreshIds(db, CLASHING) && LeadsTo(CLASHING, db, InTurn(k), ClashState(k))
  {
    if k == 0 {
      ClashStarts(db);
    } else {
      ClashReached(db, k - 1);
      if k <= 2 { ClashOffers(db, InTurn(k - 1), k - 1); } else { ClashBooks(db, InTurn(k - 1), k - 1); }
    }
  }

  lemma InTurnIs(run: seq<Event>)
    requires run == [Statement(0, {}), Commit(0), Statement(1, {}), Commit(1),
                     Statement(2, {}), Commit(2), Statement(3, {}), Commit(3)]
    ensures InTurn(4) == run
  {
    assert InTurn(2) == [Statement(0, {}), Commit(0), Statement(1, {}), Commit(1)];
    assert InTurn(4) == InTurn(2) + Both(2) + Both(3);
  }

  /** One user offers [0:00, 0:30) and [0:15, 0:45), both slots are booked, and every call
      succeeds: the two meetings on the calendar overlap. */
  lemma OverlappingOffersClash(db: Db, run: seq<Event>)
    requires db == Db(map[1 := "alice"], map[], map[], {})
    requires run == [Statement(0, {}), Commit(0), Statement(1, {}), Commit(1),
                     Statement(2, {}), Commit(2), Statement(3, {}), Commit(3)]
    ensures Valid(db) && FreshIds(db, CLASHING)
    ensures Legal(CLASHING, Initial(db, CLASHING), run) && Atomic(CLASHING, Initial(db, CLASHING), run)
    ensures var s := After(CLASHING, Initial(db, CLASHING), run);
            && s == ClashState(4)
            && OnCalendar(s.db, 1, 7) && OnCalendar(s.db, 1, 8)
            && var view := CalendarView(s.db, 1);
               view[7].startAt < view[8].startAt < view[7].endAt < view[8].endAt
  {
    ClashReached(db, 4);
    InTurnIs(run);
    ClashOverlaps(ClashState(4).db);
  }
}
