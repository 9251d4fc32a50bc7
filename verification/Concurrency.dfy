/** What does not wait: which calls go on whatever the others have pending. */
module Concurrency {
  import opened GoErrors
  import opened Schema
  import opened Transactions
  import opened Protocol
  import opened Serializability
  import opened Progress
  import opened Reachability
  import opened Guarantees

  /** Updates, offers and registrations never wait, with any guard and whatever is pending: until
      its last statement has run a call can run the next one, and then an offer can commit. */
  lemma OthersNeverWait(ops: seq<Op>, s: State, t: nat, seen: set<Id>)
    requires Inv(ops, s) && t < |ops| && s.calls[t].Active?
    requires ops[t].Update? || ops[t].CreateAvailability? || ops[t].AddUser?
    ensures s.calls[t].pc <= |Program(ops[t])|
    ensures Enabled(ops, s, Statement(t, seen)) <==> !ops[t].CreateAvailability? || s.calls[t].pc < |Program(ops[t])|
    ensures Enabled(ops, s, Commit(t)) <==> ops[t].CreateAvailability? && s.calls[t].pc == |Program(ops[t])|
  {
    assert CallOk(s.db, ops[t], s.calls[t]);
  }

  /** A booking waits with its first statement, if and only if another call has an uncommitted
      meeting with its id or on its slot, and with no later one. */
  lemma BookingWaitsExactly(ops: seq<Op>, s: State, t: nat, seen: set<Id>)
    requires Inv(ops, s) && t < |ops| && s.calls[t].Active? && ops[t].BookMeeting?
    ensures s.calls[t].pc == 0 ==>
              (Enabled(ops, s, Statement(t, seen)) <==>
               forall u :: 0 <= u < |ops| && u != t && s.calls[u].Active? ==>
                 forall m :: m in s.calls[u].delta.meetings ==>
                   m != ops[t].meetingId && s.calls[u].delta.meetings[m].timeslotId != ops[t].meeting.timeslotId)
    ensures s.calls[t].pc <= |ops[t].attendees| + 1
    ensures 0 < s.calls[t].pc <= |ops[t].attendees| ==> Enabled(ops, s, Statement(t, seen))
    ensures s.calls[t].pc == |ops[t].attendees| + 1 ==> Enabled(ops, s, Commit(t))
  {
    assert CallOk(s.db, ops[t], s.calls[t]);
    if Blocked(ops, s, t) {
      var u :| 0 <= u < |ops| && u != t && Awaits(ops[t], s.calls[t], s.calls[u]);
      assert HoldsMeeting(s.calls[u], ops[t].meetingId) || HoldsSlot(s.calls[u], ops[t].meeting.timeslotId);
    } else {
      forall u | 0 <= u < |ops| && u != t && s.calls[u].Active? && s.calls[t].pc == 0
        ensures !HoldsMeeting(s.calls[u], ops[t].meetingId) && !HoldsSlot(s.calls[u], ops[t].meeting.timeslotId)
      {
        assert !Awaits(ops[t], s.calls[t], s.calls[u]);
      }
    }
  }

  /** A delete waits if and only if another call has an uncommitted meeting on its slot. */
  lemma DeleteWaitsExactly(ops: seq<Op>, s: State, t: nat, seen: set<Id>)
    requires Inv(ops, s) && t < |ops| && s.calls[t].Active? && ops[t].Delete?
    ensures Enabled(ops, s, Statement(t, seen)) <==>
            forall u :: 0 <= u < |ops| && u != t && s.calls[u].Active? ==>
              forall m :: m in s.calls[u].delta.meetings ==>
                s.calls[u].delta.meetings[m].timeslotId != ops[t].slotId
  {
    if Blocked(ops, s, t) {
      var u :| 0 <= u < |ops| && u != t && Awaits(ops[t], s.calls[t], s.calls[u]);
      assert HoldsSlot(s.calls[u], ops[t].slotId);
    } else {
      forall u | 0 <= u < |ops| && u != t && s.calls[u].Active? ensures !HoldsSlot(s.calls[u], ops[t].slotId) {
        assert !Awaits(ops[t], s.calls[t], s.calls[u]);
      }
    }
  }

  /** Any unfinished call may fail at any time with any error, and then leaves nothing behind. */
  lemma AnyCallMayFail(ops: seq<Op>, s: State, t: nat, err: Error)
    requires Inv(ops, s) && t < |ops| && s.calls[t].Active? && err != Nil
    ensures Enabled(ops, s, Fail(t, err))
    ensures Next(ops, s, Fail(t, err)) == State(s.db, s.calls[t := Ended(Failed(err))])
  {
  }

  // ---- An update beside a booking ----

  lemma BookingPending(ops: seq<Op>, db: Db, b: nat, seen: set<Id>)
    requires Valid(db) && FreshIds(db, ops) && b < |ops| && ops[b].BookMeeting?
    requires CanBook(db, ops[b].meetingId, ops[b].meeting.timeslotId)
    ensures var start := Initial(db, ops);
            && Enabled(ops, start, Statement(b, seen))
            && Next(ops, start, Statement(b, seen)) ==
                 State(db, start.calls[b := Active(1, Delta(map[], map[ops[b].meetingId := ops[b].meeting], {}))])
  {
    var start := Initial(db, ops);
    InitialInv(db, ops);
    BookingWaitsExactly(ops, start, b, seen);
    PrefixReplays(db, ops[b], start.calls[b]);
    assert Program(ops[b])[..0] == [];
  }

  /** While a booking of a free slot is uncommitted, an update of that slot goes through at once,
      with the row count 1; and when the booking commits, its slot carries the new times. */
  lemma UpdatePassesBooking(ops: seq<Op>, db: Db, slotId: Id, b: nat, t: nat) returns (run: seq<Event>)
    requires Valid(db) && FreshIds(db, ops) && slotId in db.slots && slotId !in Booked(db)
    requires b < |ops| && Racer(ops[b], slotId) && ops[b].meetingId !in db.meetings
    requires t < |ops| && ops[t].Update? && ops[t].slotId == slotId
    requires 10 <= ops[t].minutes <= 60 && ops[t].startAt < ops[t].endAt
    ensures Legal(ops, Initial(db, ops), run) && Atomic(ops, Initial(db, ops), run)
    ensures |run| > 2 && run[0] == Statement(b, {}) && run[1] == Statement(t, Booked(db))
    ensures ops[b].attendees == [] ==> run == [Statement(b, {}), Statement(t, Booked(db)), Commit(b)]
    ensures var s := After(ops, Initial(db, ops), run);
            && |s.calls| == |ops| && s.calls[t] == Ended(Rows(1)) && s.calls[b] == Ended(Done)
            && ops[b].meetingId in s.db.meetings && s.db.meetings[ops[b].meetingId] == ops[b].meeting
            && var row := Slot(db.slots[slotId].userId, ops[t].startAt, ops[t].endAt, ops[t].minutes);
               s.db.slots == db.slots[slotId := row]
  {
    var history, s := UpdatePasses(ops, db, slotId, b, t);
    var passed := [Statement(b, {}), Statement(t, Booked(db))];
    run := BookingFinishes(ops, db, passed, history, s, b);
    assert run[0] == run[..2][0] && run[1] == run[..2][1];
    assert passed + [Commit(b)] == [Statement(b, {}), Statement(t, Booked(db)), Commit(b)];
    BookingOutcome(s.db, ops[b]);
    assert Booked(s.db) == Booked(db);
  }

  lemma UpdatePasses(ops: seq<Op>, db: Db, slotId: Id, b: nat, t: nat) returns (history: seq<Entry>, s: State)
    requires Valid(db) && FreshIds(db, ops) && slotId in db.slots && slotId !in Booked(db)
    requires b < |ops| && Racer(ops[b], slotId) && ops[b].meetingId !in db.meetings
    requires t < |ops| && ops[t].Update? && ops[t].slotId == slotId
    requires 10 <= ops[t].minutes <= 60 && ops[t].startAt < ops[t].endAt
    ensures Reaches(ops, db, [Statement(b, {}), Statement(t, Booked(db))], history, s) && |s.calls| == |ops|
    ensures s.calls[t] == Ended(Rows(1)) && s.calls[b].Active? && s.calls[b].pc == 1 && QuietBut(s, b)
    ensures var row := Slot(db.slots[slotId].userId, ops[t].startAt, ops[t].endAt, ops[t].minutes);
            s.db == db.(slots := db.slots[slotId := row])
  {
    var start, first, second := Initial(db, ops), Statement(b, {}), Statement(t, Booked(db));
    BookingPending(ops, db, b, {});
    var s1 := Next(ops, start, first);
    InitialInv(db, ops);
    StepKeepsInv(ops, start, first);
    OthersNeverWait(ops, s1, t, Booked(db));
    s := Next(ops, s1, second);
    UpdateExactly(db, Booked(db), slotId, ops[t].startAt, ops[t].endAt, ops[t].minutes);
    FirstReached(ops, db, first);
    ReachesNext(ops, db, [first], [], s1, second);
    assert [first] + [second] == [first, second];
    history := [] + [EntryOf(second)];
  }

  lemma FirstReached(ops: seq<Op>, db: Db, e: Event)
    requires var start := Initial(db, ops);
             Enabled(ops, start, e) && GuardsTruth(ops, start, e) && Next(ops, start, e).calls[e.call].Active?
    ensures Reaches(ops, db, [e], [], Next(ops, Initial(db, ops), e))
  {
    ReachesNext(ops, db, [], [], Initial(db, ops), e);
    assert [] + [e] == [e];
  }

  /** The booking goes on to its end, undisturbed. */
  lemma BookingFinishes(ops: seq<Op>, db: Db, run: seq<Event>, history: seq<Entry>, s: State, b: nat)
    returns (longer: seq<Event>)
    requires Valid(db) && FreshIds(db, ops) && Reaches(ops, db, run, history, s) && |s.calls| == |ops|
    requires b < |ops| && ops[b].BookMeeting? && s.calls[b].Active? && s.calls[b].pc == 1 && QuietBut(s, b)
    ensures Legal(ops, Initial(db, ops), longer) && Atomic(ops, Initial(db, ops), longer)
    ensures |longer| > |run| && longer[..|run|] == run && (ops[b].attendees == [] ==> longer == run + [Commit(b)])
    ensures After(ops, Initial(db, ops), longer) == Serially(ops, s, b)
  {
    ReachableInv(ops, db, run);
    OnwardIsEnabled(ops, s, b);
    OnwardIsSerial(ops, s, b);
    var e := Onward(ops, s, b);
    var s' := Next(ops, s, e);
    ReachesNext(ops, db, run, history, s, e);
    longer := run + [e];
    if s'.calls[b].Active? {
      assert history + [] == history;
      longer := FinishAlone(ops, db, run + [e], history, s', b);
    }
  }
}
