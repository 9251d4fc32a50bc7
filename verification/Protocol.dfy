/** Any number of concurrent calls, interleaved statement by statement at Read Committed.

    The engine's rules, taken as assumptions: a transaction reads the committed tables plus its
    own rows; an insert whose unique key is pending in another transaction waits for that
    transaction; a delete waits while a pending meeting references its slot; an autocommitted
    statement is one step. The guard of such a statement reads `seen`, an arbitrary set: in a run
    that is Atomic it agrees with the tables of that step about the slot being written. Any call
    may fail at any point. */
module Protocol {
  import opened GoErrors
  import opened Schema
  import opened Transactions

  /** The uncommitted rows of a transaction. */
  datatype Delta = Delta(slots: map<Id, Slot>, meetings: map<Id, Meeting>, participants: set<Participant>)

  datatype Call =
    | Active(pc: nat, delta: Delta)
    | Ended(outcome: Outcome)

  datatype State = State(db: Db, calls: seq<Call>)

  datatype Event =
    | Statement(call: nat, seen: set<Id>)
    | Commit(call: nat)
    | Fail(call: nat, err: Error)

  const NOTHING := Delta(map[], map[], {})

  function Initial(db: Db, ops: seq<Op>): State {
    State(db, seq(|ops|, _ => Active(0, NOTHING)))
  }

  function Merge(db: Db, delta: Delta): Db {
    Db(db.users, db.slots + delta.slots, db.meetings + delta.meetings, db.participants + delta.participants)
  }

  function Extend(delta: Delta, st: Insert): Delta {
    match st
    case InsertSlot(id, row) => delta.(slots := delta.slots[id := row])
    case InsertMeeting(id, row) => delta.(meetings := delta.meetings[id := row])
    case InsertParticipant(row) => delta.(participants := delta.participants + {row})
  }

  /** The call holds an uncommitted meeting with this id, or on this slot. */
  predicate HoldsMeeting(call: Call, meetingId: Id) {
    call.Active? && meetingId in call.delta.meetings
  }

  predicate HoldsSlot(call: Call, slotId: Id) {
    call.Active? && exists m :: m in call.delta.meetings && call.delta.meetings[m].timeslotId == slotId
  }

  /** What the next statement of `op` has to wait for in another call. */
  predicate Awaits(op: Op, mine: Call, other: Call) {
    match op
    case BookMeeting(id, meeting, _) =>
      mine.Active? && mine.pc == 0 && (HoldsMeeting(other, id) || HoldsSlot(other, meeting.timeslotId))
    case Delete(id) => HoldsSlot(other, id)
    case _ => false
  }

  predicate Blocked(ops: seq<Op>, s: State, t: nat)
    requires |s.calls| == |ops| && t < |ops|
  {
    exists u :: 0 <= u < |ops| && u != t && Awaits(ops[t], s.calls[t], s.calls[u])
  }

  predicate Enabled(ops: seq<Op>, s: State, e: Event) {
    && |s.calls| == |ops|
    && e.call < |ops|
    && s.calls[e.call].Active?
    && match e
       case Statement(t, _) =>
         (ops[t].Transactional() ==> s.calls[t].pc < |Program(ops[t])|) && !Blocked(ops, s, t)
       case Commit(t) => ops[t].Transactional() && s.calls[t].pc == |Program(ops[t])|
       case Fail(_, err) => err != Nil
  }

  function Next(ops: seq<Op>, s: State, e: Event): State
    requires Enabled(ops, s, e)
  {
    var op, call := ops[e.call], s.calls[e.call];
    match e
    case Statement(t, seen) =>
      if op.Transactional() then
        var st := Program(op)[call.pc];
        match Attempt(Merge(s.db, call.delta), st, Nil)
        case Ok(_) => s.(calls := s.calls[t := Active(call.pc + 1, Extend(call.delta, st))])
        case Err(err) => s.(calls := s.calls[t := Ended(Failed(err))])
      else
        var (after, outcome) := Autocommit(s.db, op, seen);
        State(after, s.calls[t := Ended(outcome)])
    case Commit(t) => State(Merge(s.db, call.delta), s.calls[t := Ended(Done)])
    case Fail(t, err) => s.(calls := s.calls[t := Ended(Failed(err))])
  }

  // ---- Runs ----

  /** Every event of the run is enabled where it happens. */
  predicate Legal(ops: seq<Op>, start: State, run: seq<Event>) {
    run == [] ||
    var last := |run| - 1;
    Legal(ops, start, run[..last]) && Enabled(ops, After(ops, start, run[..last]), run[last])
  }

  function After(ops: seq<Op>, start: State, run: seq<Event>): State {
    if run == [] then start
    else
      var before := After(ops, start, run[..|run| - 1]);
      if Enabled(ops, before, run[|run| - 1]) then Next(ops, before, run[|run| - 1]) else before
  }

  predicate Guarded(op: Op) {
    op.Update? || op.Delete?
  }

  /** The step evaluates a guard on an existing slot. */
  predicate GuardMatters(ops: seq<Op>, s: State, e: Event) {
    e.Statement? && e.call < |ops| && Guarded(ops[e.call]) && ops[e.call].slotId in s.db.slots
  }

  /** If the step evaluates a guard on an existing slot, the guard gets it right whether that
      slot is booked. */
  predicate GuardsTruth(ops: seq<Op>, s: State, e: Event) {
    GuardMatters(ops, s, e) ==>
      (ops[e.call].slotId in e.seen <==> ops[e.call].slotId in Booked(s.db))
  }

  /** Every guard of the run is evaluated on the tables of its own step. */
  predicate Atomic(ops: seq<Op>, start: State, run: seq<Event>) {
    run == [] ||
    var last := |run| - 1;
    Atomic(ops, start, run[..last]) && GuardsTruth(ops, After(ops, start, run[..last]), run[last])
  }

  predicate Complete(s: State) {
    forall t :: 0 <= t < |s.calls| ==> s.calls[t].Ended?
  }

  // ---- The invariant ----

  /** uuid.New() never repeats: the ids of all offers are distinct. */
  ghost predicate DistinctOffers(ops: seq<Op>) {
    && (forall t {:trigger DistinctIds(Offered(ops[t]))} :: 0 <= t < |ops| ==> DistinctIds(Offered(ops[t])))
    && (forall t, u, i, j :: 0 <= t < u < |ops| && 0 <= i < |Offered(ops[t])| && 0 <= j < |Offered(ops[u])| ==>
          Offered(ops[t])[i].id != Offered(ops[u])[j].id)
  }

  ghost predicate UnusedIds(db: Db, op: Op) {
    forall i :: 0 <= i < |Offered(op)| ==> Offered(op)[i].id !in db.slots
  }

  /** ... and are not in the tables yet. */
  ghost predicate FreshIds(db: Db, ops: seq<Op>) {
    DistinctOffers(ops) && forall t {:trigger UnusedIds(db, ops[t])} :: 0 <= t < |ops| ==> UnusedIds(db, ops[t])
  }

  /** The pending rows of a call that is `pc` statements into its program. */
  function Pending(op: Op, pc: nat): Delta
    requires pc <= |Program(op)|
  {
    match op
    case BookMeeting(id, meeting, attendees) =>
      if pc == 0 then NOTHING
      else Delta(map[], map[id := meeting], Invitations(id, attendees[..pc - 1]))
    case CreateAvailability(_, _, _, _) => Delta(RowMap(Offered(op)[..pc]), map[], {})
    case _ => NOTHING
  }

  ghost predicate CallOk(db: Db, op: Op, call: Call) {
    call.Active? ==>
      && call.pc <= |Program(op)|
      && call.delta == Pending(op, call.pc)
      && (op.BookMeeting? && call.pc > 0 ==> CanBook(db, op.meetingId, op.meeting.timeslotId))
      && (op.CreateAvailability? ==> UnusedIds(db, op) && Insertable(db, Offered(op)[..call.pc]))
  }

  predicate Holder(op: Op, call: Call) {
    op.BookMeeting? && call.Active? && call.pc > 0
  }

  ghost predicate Apart(op: Op, call: Call, op': Op, call': Call) {
    Holder(op, call) && Holder(op', call') ==>
      op.meetingId != op'.meetingId && op.meeting.timeslotId != op'.meeting.timeslotId
  }

  ghost predicate Inv(ops: seq<Op>, s: State) {
    && |s.calls| == |ops|
    && Valid(s.db)
    && DistinctOffers(ops)
    && (forall t {:trigger CallOk(s.db, ops[t], s.calls[t])} :: 0 <= t < |ops| ==> CallOk(s.db, ops[t], s.calls[t]))
    && (forall t, u {:trigger Apart(ops[t], s.calls[t], ops[u], s.calls[u])} ::
          0 <= t < |ops| && 0 <= u < |ops| && t != u ==> Apart(ops[t], s.calls[t], ops[u], s.calls[u]))
  }

  lemma HeldRows(db: Db, op: Op, call: Call)
    requires CallOk(db, op, call)
    ensures forall m :: HoldsMeeting(call, m) <==> Holder(op, call) && op.meetingId == m
    ensures forall id :: HoldsSlot(call, id) <==> Holder(op, call) && op.meeting.timeslotId == id
  {
    if Holder(op, call) {
      assert call.delta.meetings[op.meetingId] == op.meeting;
    }
  }

  lemma InitialInv(db: Db, ops: seq<Op>)
    requires Valid(db) && FreshIds(db, ops)
    ensures Inv(ops, Initial(db, ops))
  {
  }

  /** The heart of it: what a call has pending is what replaying its prefix on the tables as they
      are committed now would give. */
  lemma PrefixReplays(db: Db, op: Op, call: Call)
    requires op.Transactional() && call.Active? && CallOk(db, op, call)
    ensures Replay(db, Program(op)[..call.pc], NO_FAULTS) == Ok(Merge(db, call.delta))
  {
    if op.CreateAvailability? {
      ReplayOffer(db, op, call.pc);
      assert db.meetings + map[] == db.meetings && db.participants + {} == db.participants;
    } else if call.pc == 0 {
      assert Program(op)[..0] == [];
      MergeNothing(db);
    } else {
      BookingPrefixReplays(db, op, call);
    }
  }

  lemma MergeNothing(db: Db)
    ensures Merge(db, NOTHING) == db
  {
    assert db.slots + map[] == db.slots && db.meetings + map[] == db.meetings;
    assert db.participants + {} == db.participants;
  }

  lemma BookingPrefixReplays(db: Db, op: Op, call: Call)
    requires op.BookMeeting? && call.Active? && CallOk(db, op, call) && call.pc > 0
    ensures Replay(db, Program(op)[..call.pc], NO_FAULTS) == Ok(Merge(db, call.delta))
  {
    ReplayBooking(db, op, call.pc - 1);
    assert db.slots + map[] == db.slots;
    assert db.meetings + map[op.meetingId := op.meeting] == db.meetings[op.meetingId := op.meeting];
  }
}
