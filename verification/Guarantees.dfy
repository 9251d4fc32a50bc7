/** What callers may rely on over whole interleaved runs. */
module Guarantees {
  import opened GoErrors
  import opened Schema
  import opened Slicing
  import opened Transactions
  import opened Protocol
  import opened Serializability
  import opened Progress
  import opened Provenance

  // ---- Booked slots are frozen ----

  /** Every committed meeting is still there, with its slot and its attendees unchanged. */
  ghost predicate Frozen(before: Db, after: Db) {
    forall m :: m in before.meetings ==>
      && m in after.meetings && after.meetings[m] == before.meetings[m]
      && KeepsSlot(before, after, before.meetings[m].timeslotId)
      && forall email :: Participant(m, email) in before.participants <==> Participant(m, email) in after.participants
  }

  predicate KeepsSlot(before: Db, after: Db, slotId: Id) {
    slotId in before.slots ==> slotId in after.slots && after.slots[slotId] == before.slots[slotId]
  }

  /** The step writes through a guard that missed a committed meeting. */
  predicate Overrides(ops: seq<Op>, s: State, e: Event) {
    e.Statement? && e.call < |ops| &&
    match ops[e.call]
    case Delete(id) => id in s.db.slots && id in Booked(s.db) && id !in e.seen
    case Update(id, startAt, endAt, minutes) =>
      && id in s.db.slots && id in Booked(s.db) && id !in e.seen
      && var row := s.db.slots[id].(startAt := startAt, endAt := endAt, durationMins := minutes);
         Checks(row) && row != s.db.slots[id]
    case _ => false
  }

  /** A step leaves every booked slot alone exactly when it does not write through such a guard. */
  lemma StepFreezesExactly(ops: seq<Op>, s: State, e: Event)
    requires Inv(ops, s) && Enabled(ops, s, e)
    ensures Frozen(s.db, Next(ops, s, e).db) <==> !Overrides(ops, s, e)
  {
    if e.Statement? && !ops[e.call].Transactional() {
      AutocommitFreezesExactly(ops, s, e);
    } else {
      assert !Overrides(ops, s, e);
      if e.Commit? { CommitKeepsMeetings(s.db, ops[e.call], s.calls[e.call]); }
    }
  }

  lemma CommitKeepsMeetings(db: Db, op: Op, call: Call)
    requires op.Transactional() && call.Active? && CallOk(db, op, call) && call.pc == |Program(op)|
    ensures Frozen(db, Merge(db, call.delta))
  {
    if op.BookMeeting? {
      CommittedBooking(db, op, call);
    } else {
      CommittedOffer(db, op, call);
      RowMapKeys(Offered(op));
    }
  }

  lemma AutocommitFreezesExactly(ops: seq<Op>, s: State, e: Event)
    requires Inv(ops, s) && Enabled(ops, s, e) && e.Statement? && !ops[e.call].Transactional()
    ensures Frozen(s.db, Autocommit(s.db, ops[e.call], e.seen).0) <==> !Overrides(ops, s, e)
  {
  }

  lemma FrozenTransitive(a: Db, b: Db, c: Db)
    requires Valid(a) && Frozen(a, b) && Frozen(b, c)
    ensures Frozen(a, c)
  {
  }

  /** No step of the run writes through such a guard. */
  ghost predicate NeverOverrides(ops: seq<Op>, start: State, run: seq<Event>) {
    forall i :: 0 <= i < |run| ==> !Overrides(ops, After(ops, start, run[..i]), run[i])
  }

  /** Whatever is booked at some point of the run is booked, unchanged, at every later point. */
  ghost predicate FrozenThroughout(ops: seq<Op>, start: State, run: seq<Event>) {
    forall k, l :: 0 <= k <= l <= |run| ==> Frozen(After(ops, start, run[..k]).db, After(ops, start, run[..l]).db)
  }

  /** The state after the first k events, and its successor. */
  lemma StepOfRun(ops: seq<Op>, db: Db, run: seq<Event>, k: nat)
    requires Valid(db) && FreshIds(db, ops) && k < |run| && Legal(ops, Initial(db, ops), run)
    ensures var s := After(ops, Initial(db, ops), run[..k]);
            && Inv(ops, s) && Enabled(ops, s, run[k])
            && After(ops, Initial(db, ops), run[..k + 1]) == Next(ops, s, run[k])
  {
    var start := Initial(db, ops);
    PrefixOfRun(ops, start, run, k);
    PrefixOfRun(ops, start, run, k + 1);
    ReachableInv(ops, db, run[..k]);
    assert run[..k + 1][..k] == run[..k] && run[..k + 1][k] == run[k];
  }

  /** What no single step disturbs stays over the whole sequence. */
  lemma {:induction false} FrozenChain(dbs: seq<Db>, k: nat, l: nat)
    requires k <= l < |dbs| && forall i :: 0 <= i < |dbs| ==> Valid(dbs[i])
    requires forall i :: 0 <= i < |dbs| - 1 ==> Frozen(dbs[i], dbs[i + 1])
    ensures Frozen(dbs[k], dbs[l])
    decreases l
  {
    if k < l {
      FrozenChain(dbs, k, l - 1);
      assert Frozen(dbs[l - 1], dbs[l - 1 + 1]);
      FrozenTransitive(dbs[k], dbs[l - 1], dbs[l]);
    }
  }

  /** The tables along the run. */
  function Along(ops: seq<Op>, start: State, run: seq<Event>): seq<Db> {
    seq(|run| + 1, i requires 0 <= i <= |run| => After(ops, start, run[..i]).db)
  }

  lemma FrozenAlong(ops: seq<Op>, db: Db, run: seq<Event>)
    requires Valid(db) && FreshIds(db, ops) && Legal(ops, Initial(db, ops), run)
    requires NeverOverrides(ops, Initial(db, ops), run)
    ensures var dbs := Along(ops, Initial(db, ops), run);
            && (forall i :: 0 <= i < |dbs| ==> Valid(dbs[i]))
            && forall i :: 0 <= i < |dbs| - 1 ==> Frozen(dbs[i], dbs[i + 1])
  {
    var dbs := Along(ops, Initial(db, ops), run);
    forall i | 0 <= i < |dbs| ensures Valid(dbs[i]) {
      ValidAt(ops, db, run, i);
    }
    forall i | 0 <= i < |dbs| - 1 ensures Frozen(dbs[i], dbs[i + 1]) {
      StepOfRunFreezes(ops, db, run, i);
    }
  }

  lemma ValidAt(ops: seq<Op>, db: Db, run: seq<Event>, k: nat)
    requires Valid(db) && FreshIds(db, ops) && k <= |run| && Legal(ops, Initial(db, ops), run)
    ensures Valid(After(ops, Initial(db, ops), run[..k]).db)
  {
    PrefixOfRun(ops, Initial(db, ops), run, k);
    ReachableInv(ops, db, run[..k]);
  }

  lemma StepOfRunFreezes(ops: seq<Op>, db: Db, run: seq<Event>, k: nat)
    requires Valid(db) && FreshIds(db, ops) && k < |run| && Legal(ops, Initial(db, ops), run)
    ensures Frozen(After(ops, Initial(db, ops), run[..k]).db, After(ops, Initial(db, ops), run[..k + 1]).db)
       <==> !Overrides(ops, After(ops, Initial(db, ops), run[..k]), run[k])
  {
    StepOfRun(ops, db, run, k);
    StepFreezesExactly(ops, After(ops, Initial(db, ops), run[..k]), run[k]);
  }

  lemma FrozenStepOverridesNothing(ops: seq<Op>, db: Db, run: seq<Event>, i: nat)
    requires Valid(db) && FreshIds(db, ops) && i < |run| && Legal(ops, Initial(db, ops), run)
    requires FrozenThroughout(ops, Initial(db, ops), run)
    ensures !Overrides(ops, After(ops, Initial(db, ops), run[..i]), run[i])
  {
    StepOfRunFreezes(ops, db, run, i);
    assert Frozen(After(ops, Initial(db, ops), run[..i]).db, After(ops, Initial(db, ops), run[..i + 1]).db);
  }

  /** Booked meetings and their slots are frozen over a whole run if and only if no step writes
      through a guard that missed a committed meeting. */
  lemma BookedIsFrozen(ops: seq<Op>, db: Db, run: seq<Event>)
    requires Valid(db) && FreshIds(db, ops) && Legal(ops, Initial(db, ops), run)
    ensures FrozenThroughout(ops, Initial(db, ops), run) <==> NeverOverrides(ops, Initial(db, ops), run)
  {
    var start := Initial(db, ops);
    if NeverOverrides(ops, start, run) {
      FrozenAlong(ops, db, run);
      forall k, l | 0 <= k <= l <= |run|
        ensures Frozen(After(ops, start, run[..k]).db, After(ops, start, run[..l]).db)
      {
        FrozenChain(Along(ops, start, run), k, l);
      }
    }
    if FrozenThroughout(ops, start, run) {
      forall i | 0 <= i < |run| ensures !Overrides(ops, After(ops, start, run[..i]), run[i]) {
        FrozenStepOverridesNothing(ops, db, run, i);
      }
    }
  }

  /** With truthful guards that is always so. */
  lemma TruthfulGuardsFreeze(ops: seq<Op>, db: Db, run: seq<Event>)
    requires Valid(db) && FreshIds(db, ops)
    requires Legal(ops, Initial(db, ops), run) && Atomic(ops, Initial(db, ops), run)
    ensures FrozenThroughout(ops, Initial(db, ops), run)
  {
    var start := Initial(db, ops);
    forall i | 0 <= i < |run| ensures !Overrides(ops, After(ops, start, run[..i]), run[i]) {
      GuardIsTruthful(ops, start, run, i);
    }
    BookedIsFrozen(ops, db, run);
  }

  lemma GuardIsTruthful(ops: seq<Op>, start: State, run: seq<Event>, i: nat)
    requires Legal(ops, start, run) && Atomic(ops, start, run) && i < |run|
    ensures GuardsTruth(ops, After(ops, start, run[..i]), run[i])
  {
    PrefixOfRun(ops, start, run, i + 1);
    assert run[..i + 1][..i] == run[..i];
  }

  /** Why the guard matters: a delete that waited for a booking and then went ahead on the
      snapshot it started with removes the meeting just committed. Both calls report success. */
  lemma StaleGuardLosesMeeting(ops: seq<Op>, db: Db, run: seq<Event>)
    requires db == Db(map[1 := "alice"], map[5 := Slot(1, 0, 30 * MINUTE, 30)], map[], {})
    requires ops == [BookMeeting(7, STANDUP, []), Delete(5)]
    requires run == [Statement(0, {}), Commit(0), Statement(1, Booked(db))]
    ensures Valid(db) && FreshIds(db, ops) && Legal(ops, Initial(db, ops), run)
    ensures 7 in After(ops, Initial(db, ops), run[..2]).db.meetings
    ensures 7 !in After(ops, Initial(db, ops), run).db.meetings
    ensures After(ops, Initial(db, ops), run).calls == [Ended(Done), Ended(Rows(1))]
  {
    var start := Initial(db, ops);
    StandupStarts(ops, db);
    StandupInserted(ops, start);
    var s1 := Next(ops, start, run[0]);
    StandupCommitted(ops, s1);
    var s2 := Next(ops, s1, run[1]);
    StandupDeleted(ops, s2);
    ThreeEvents(ops, start, run[0], run[1], run[2]);
  }

  lemma StandupStarts(ops: seq<Op>, db: Db)
    requires db == Db(map[1 := "alice"], map[5 := Slot(1, 0, 30 * MINUTE, 30)], map[], {})
    requires ops == [BookMeeting(7, STANDUP, []), Delete(5)]
    ensures Valid(db) && FreshIds(db, ops) && Booked(db) == {}
    ensures Initial(db, ops).calls == [Active(0, NOTHING), Active(0, NOTHING)]
  {
  }

  lemma ThreeEvents(ops: seq<Op>, start: State, e0: Event, e1: Event, e2: Event)
    requires Enabled(ops, start, e0)
    requires Enabled(ops, Next(ops, start, e0), e1)
    requires Enabled(ops, Next(ops, Next(ops, start, e0), e1), e2)
    ensures var run := [e0, e1, e2];
            && Legal(ops, start, run)
            && After(ops, start, run[..2]) == Next(ops, Next(ops, start, e0), e1)
            && After(ops, start, run) == Next(ops, After(ops, start, run[..2]), e2)
  {
    assert [] + [e0] == [e0] && [e0] + [e1] == [e0, e1, e2][..2] && [e0, e1, e2][..2] + [e2] == [e0, e1, e2];
    AppendEvent(ops, start, [], e0);
    AppendEvent(ops, start, [e0], e1);
    AppendEvent(ops, start, [e0, e1, e2][..2], e2);
  }

  const STANDUP := Meeting(5, "Standup", "", "")

  lemma StandupInserted(ops: seq<Op>, s: State)
    requires ops == [BookMeeting(7, STANDUP, []), Delete(5)]
    requires s.calls == [Active(0, NOTHING), Active(0, NOTHING)]
    requires s.db.meetings == map[] && 5 in s.db.slots
    ensures Enabled(ops, s, Statement(0, {}))
    ensures Next(ops, s, Statement(0, {}))
         == State(s.db, [Active(1, Delta(map[], map[7 := STANDUP], {})), Active(0, NOTHING)])
  {
  }

  lemma StandupCommitted(ops: seq<Op>, s: State)
    requires ops == [BookMeeting(7, STANDUP, []), Delete(5)]
    requires s.calls == [Active(1, Delta(map[], map[7 := STANDUP], {})), Active(0, NOTHING)]
    requires s.db.meetings == map[] && 5 in s.db.slots
    ensures Enabled(ops, s, Commit(0))
    ensures var s' := Next(ops, s, Commit(0));
            s'.calls == [Ended(Done), Active(0, NOTHING)] && s'.db.meetings == map[7 := STANDUP] && 5 in s'.db.slots
  {
  }

  lemma StandupDeleted(ops: seq<Op>, s: State)
    requires ops == [BookMeeting(7, STANDUP, []), Delete(5)]
    requires s.calls == [Ended(Done), Active(0, NOTHING)] && s.db.meetings == map[7 := STANDUP] && 5 in s.db.slots
    ensures Enabled(ops, s, Statement(1, {}))
    ensures var s' := Next(ops, s, Statement(1, {}));
            7 !in s'.db.meetings && s'.calls == [Ended(Done), Ended(Rows(1))]
  {
  }

  /** No order of the two calls alone returns what that run returned. */
  lemma StaleGuardIsNotSerializable(ops: seq<Op>, db: Db, s: State, history: seq<Entry>)
    requires db == Db(map[1 := "alice"], map[5 := Slot(1, 0, 30 * MINUTE, 30)], map[], {})
    requires ops == [BookMeeting(7, STANDUP, []), Delete(5)]
    requires s.calls == [Ended(Done), Ended(Rows(1))]
    ensures !Explains(db, ops, history, s)
  {
    BookingOutcome(db, ops[0]);
    BookingOutcome(Serial(db, ops[1]).0, ops[0]);
    assert Serial(db, ops[0]).0.meetings[7] == STANDUP;
    assert SerialDb(db, ops, []) == db;
    if Explains(db, ops, history, s) {
      assert s.calls[0].Ended? && s.calls[1].Ended?;
      var i :| 0 <= i < |history| && history[i].call == 0;
      var j :| 0 <= j < |history| && history[j].call == 1;
      assert AnswersAt(db, ops, history, s, i) && AnswersAt(db, ops, history, s, j);
      TwoEntries(history, i, j);
      assert false;
    }
  }

  lemma TwoEntries(history: seq<Entry>, i: nat, j: nat)
    requires i < |history| && j < |history| && history[i].call == 0 && history[j].call == 1
    requires forall k :: 0 <= k < |history| ==> history[k].call < 2
    requires forall k, l :: 0 <= k < l < |history| ==> history[k].call != history[l].call
    ensures |history| == 2 && (i == 0 <==> j == 1) && (i == 1 <==> j == 0)
  {
    if |history| > 2 {
      var a, b, c := history[0].call, history[1].call, history[2].call;
      assert false;
    }
  }

  // ---- Racing for one slot ----

  predicate Racer(op: Op, slotId: Id) {
    op.BookMeeting? && op.meeting.timeslotId == slotId
  }

  ghost predicate FreshMeetings(db: Db, ops: seq<Op>) {
    && (forall t :: 0 <= t < |ops| && ops[t].BookMeeting? ==> ops[t].meetingId !in db.meetings)
    && (forall t, u :: 0 <= t < u < |ops| && ops[t].BookMeeting? && ops[u].BookMeeting? ==>
          ops[t].meetingId != ops[u].meetingId)
  }

  /** The slot is there to be had. */
  ghost predicate Free(db: Db, ops: seq<Op>, slotId: Id) {
    slotId in db.slots && slotId !in Booked(db) && FreshMeetings(db, ops)
  }

  /** ... and nobody tries to delete it. */
  ghost predicate Contested(db: Db, ops: seq<Op>, slotId: Id) {
    && Free(db, ops, slotId)
    && forall t :: 0 <= t < |ops| && ops[t].Delete? ==> ops[t].slotId != slotId
  }

  /** When the holder of a slot rolls back, any call waiting for that slot can take it. */
  lemma RollbackReleasesSlot(ops: seq<Op>, s: State, t: nat, err: Error, u: nat, slotId: Id)
    requires Inv(ops, s) && Enabled(ops, s, Fail(t, err)) && Holder(ops[t], s.calls[t]) && Racer(ops[t], slotId)
    requires u < |ops| && Racer(ops[u], slotId) && s.calls[u] == Active(0, NOTHING)
    requires FreshMeetings(s.db, [ops[u]])
    requires forall v :: 0 <= v < |ops| && v != u ==> !HoldsMeeting(s.calls[v], ops[u].meetingId)
    ensures Blocked(ops, s, u)
    ensures var released := Next(ops, s, Fail(t, err));
            && Enabled(ops, released, Statement(u, Booked(s.db)))
            && Holder(ops[u], Next(ops, released, Statement(u, Booked(s.db))).calls[u])
  {
    HeldRows(s.db, ops[t], s.calls[t]);
    assert Awaits(ops[u], s.calls[u], s.calls[t]);
    assert [ops[u]][0] == ops[u];
    var released := Next(ops, s, Fail(t, err));
    forall v | 0 <= v < |ops| && v != u ensures !Awaits(ops[u], released.calls[u], released.calls[v]) {
      if v != t {
        HeldRows(s.db, ops[v], s.calls[v]);
        assert Apart(ops[t], s.calls[t], ops[v], s.calls[v]);
      }
    }
    PrefixReplays(s.db, ops[u], s.calls[u]);
    assert Program(ops[u])[..0] == [];
    assert Merge(s.db, NOTHING) == s.db;
  }

  // ---- A slot is won once ----

  predicate Won(ops: seq<Op>, s: State, slotId: Id, t: nat) {
    t < |ops| && Racer(ops[t], slotId) && Succeeded(s, t, Done)
  }

  predicate HandsOut(op: Op, slotId: Id) {
    exists i :: 0 <= i < |Offered(op)| && Offered(op)[i].id == slotId
  }

  /** The slot is booked or gone, and no offer can bring it back. */
  ghost predicate Settled(ops: seq<Op>, s: State, slotId: Id) {
    && (slotId in s.db.slots ==> slotId in Booked(s.db))
    && forall t :: 0 <= t < |ops| && t < |s.calls| && HandsOut(ops[t], slotId) ==> s.calls[t].Ended?
  }

  lemma WinningSettles(ops: seq<Op>, s: State, t: nat, slotId: Id)
    requires Inv(ops, s) && Enabled(ops, s, Commit(t)) && Racer(ops[t], slotId)
    ensures !Settled(ops, s, slotId) && Settled(ops, Next(ops, s, Commit(t)), slotId)
  {
    assert CallOk(s.db, ops[t], s.calls[t]);
    CommittedBooking(s.db, ops[t], s.calls[t]);
    forall u | 0 <= u < |ops| && HandsOut(ops[u], slotId) ensures s.calls[u].Ended? {
      assert CallOk(s.db, ops[u], s.calls[u]);
    }
  }

  lemma StepKeepsSettled(ops: seq<Op>, s: State, e: Event, slotId: Id)
    requires Inv(ops, s) && Enabled(ops, s, e) && Settled(ops, s, slotId)
    ensures Settled(ops, Next(ops, s, e), slotId)
  {
    var op, call := ops[e.call], s.calls[e.call];
    assert CallOk(s.db, op, call);
    NextTouchesOneCall(ops, s, e);
    if e.Commit? && op.BookMeeting? {
      CommittedBooking(s.db, op, call);
    } else if e.Commit? {
      CommittedOffer(s.db, op, call);
      RowMapKeys(Offered(op));
    } else if e.Statement? && op.Delete? {
      CascadeKeepsValid(s.db, op.slotId);
    }
  }

  lemma NewWinnerCommits(ops: seq<Op>, s: State, e: Event, slotId: Id, t: nat)
    requires Enabled(ops, s, e) && Won(ops, Next(ops, s, e), slotId, t) && !Won(ops, s, slotId, t)
    ensures e == Commit(t)
  {
    NextTouchesOneCall(ops, s, e);
  }

  lemma {:induction false} WonIsSettled(ops: seq<Op>, db: Db, run: seq<Event>, slotId: Id, t: nat)
    requires Valid(db) && FreshIds(db, ops) && Legal(ops, Initial(db, ops), run)
    requires Won(ops, After(ops, Initial(db, ops), run), slotId, t)
    ensures Settled(ops, After(ops, Initial(db, ops), run), slotId)
  {
    var front, e := run[..|run| - 1], run[|run| - 1];
    var before := After(ops, Initial(db, ops), front);
    ReachableInv(ops, db, front);
    if Won(ops, before, slotId, t) {
      WonIsSettled(ops, db, front, slotId, t);
      StepKeepsSettled(ops, before, e, slotId);
    } else {
      NewWinnerCommits(ops, before, e, slotId, t);
      WinningSettles(ops, before, t, slotId);
    }
  }

  /** Over a whole run, whatever fails, whatever the guards see and even if the slot is deleted,
      no two bookings of a slot succeed. */
  lemma {:induction false} AtMostOneWins(ops: seq<Op>, db: Db, run: seq<Event>, slotId: Id, t: nat, u: nat)
    requires Valid(db) && FreshIds(db, ops) && Legal(ops, Initial(db, ops), run)
    requires Won(ops, After(ops, Initial(db, ops), run), slotId, t)
    requires Won(ops, After(ops, Initial(db, ops), run), slotId, u)
    ensures t == u
  {
    var front, e := run[..|run| - 1], run[|run| - 1];
    var before := After(ops, Initial(db, ops), front);
    ReachableInv(ops, db, front);
    if Won(ops, before, slotId, t) && Won(ops, before, slotId, u) {
      AtMostOneWins(ops, db, front, slotId, t, u);
    } else if Won(ops, before, slotId, t) {
      NewWinnerCommits(ops, before, e, slotId, u);
      WonIsSettled(ops, db, front, slotId, t);
      WinningSettles(ops, before, u, slotId);
    } else {
      NewWinnerCommits(ops, before, e, slotId, t);
      if Won(ops, before, slotId, u) {
        WonIsSettled(ops, db, front, slotId, u);
        WinningSettles(ops, before, t, slotId);
      } else {
        NewWinnerCommits(ops, before, e, slotId, u);
      }
    }
  }

  // ---- A contested slot is won ----

  predicate MadeToFail(run: seq<Event>, t: nat) {
    exists i :: 0 <= i < |run| && run[i].Fail? && run[i].call == t
  }

  /** The attempt was refused, and the slot is booked. */
  predicate Lost(ops: seq<Op>, s: State, slotId: Id, t: nat) {
    t < |ops| && Succeeded(s, t, Failed(ERR_SLOT_TAKEN)) && slotId in Booked(s.db)
  }

  /** The slot stays, and every attempt that has ended was made to fail, won or lost. */
  ghost predicate RaceOn(ops: seq<Op>, s: State, run: seq<Event>, slotId: Id) {
    && slotId in s.db.slots
    && forall t: nat :: t < |ops| && t < |s.calls| && Racer(ops[t], slotId) && s.calls[t].Ended? ==>
         MadeToFail(run, t) || Won(ops, s, slotId, t) || Lost(ops, s, slotId, t)
  }

  /** A slot booked since the start has a winner. */
  lemma BookedMeansWon(ops: seq<Op>, db: Db, s: State, slotId: Id) returns (winner: nat)
    requires MeetingsAccounted(db, ops, s) && slotId in Booked(s.db) && slotId !in Booked(db)
    ensures Won(ops, s, slotId, winner)
  {
    var m :| m in s.db.meetings && s.db.meetings[m].timeslotId == slotId;
    assert !(m in db.meetings && db.meetings[m] == s.db.meetings[m]);
    winner :| BookedBy(ops, s, winner, m, s.db.meetings[m]);
  }

  lemma PendingIdIsFree(ops: seq<Op>, db: Db, s: State, slotId: Id, t: nat)
    requires Free(db, ops, slotId) && MeetingsAccounted(db, ops, s) && |s.calls| == |ops|
    requires t < |ops| && ops[t].BookMeeting? && s.calls[t].Active?
    ensures ops[t].meetingId !in s.db.meetings
  {
  }

  lemma SlotStaysBooked(ops: seq<Op>, s: State, e: Event, slotId: Id)
    requires Inv(ops, s) && Enabled(ops, s, e) && slotId in s.db.slots
    requires !(ops[e.call].Delete? && ops[e.call].slotId == slotId)
    ensures slotId in Next(ops, s, e).db.slots
    ensures slotId in Booked(s.db) ==> slotId in Booked(Next(ops, s, e).db)
  {
    var op, call := ops[e.call], s.calls[e.call];
    assert CallOk(s.db, op, call);
    if e.Commit? && op.BookMeeting? {
      CommittedBooking(s.db, op, call);
    } else if e.Commit? {
      CommittedOffer(s.db, op, call);
    } else if e.Statement? && op.Delete? {
      CascadeKeepsValid(s.db, op.slotId);
    }
  }

  lemma EndingAttemptIsDecided(ops: seq<Op>, db: Db, s: State, e: Event, slotId: Id)
    requires Inv(ops, s) && Enabled(ops, s, e) && !e.Fail? && Racer(ops[e.call], slotId)
    requires Contested(db, ops, slotId) && MeetingsAccounted(db, ops, s) && slotId in s.db.slots
    requires Next(ops, s, e).calls[e.call].Ended?
    ensures Won(ops, Next(ops, s, e), slotId, e.call) || Lost(ops, Next(ops, s, e), slotId, e.call)
  {
    if e.Statement? {
      EndingStepIsSerial(ops, s, e);
      PendingIdIsFree(ops, db, s, slotId, e.call);
      BookingOutcome(s.db, ops[e.call]);
    }
  }

  lemma MadeToFailStays(run: seq<Event>, e: Event, t: nat)
    ensures MadeToFail(run, t) || (e.Fail? && e.call == t) ==> MadeToFail(run + [e], t)
  {
    if i :| 0 <= i < |run| && run[i].Fail? && run[i].call == t {
      assert (run + [e])[i] == run[i];
    }
    assert (run + [e])[|run|] == e;
  }

  lemma StepKeepsRaceOn(ops: seq<Op>, db: Db, s: State, run: seq<Event>, e: Event, slotId: Id)
    requires Inv(ops, s) && Enabled(ops, s, e) && RaceOn(ops, s, run, slotId)
    requires Contested(db, ops, slotId) && MeetingsAccounted(db, ops, s)
    ensures RaceOn(ops, Next(ops, s, e), run + [e], slotId)
  {
    var s' := Next(ops, s, e);
    NextTouchesOneCall(ops, s, e);
    SlotStaysBooked(ops, s, e, slotId);
    forall t: nat | t < |ops| && Racer(ops[t], slotId) && s'.calls[t].Ended?
      ensures MadeToFail(run + [e], t) || Won(ops, s', slotId, t) || Lost(ops, s', slotId, t)
    {
      MadeToFailStays(run, e, t);
      if t == e.call && !e.Fail? { EndingAttemptIsDecided(ops, db, s, e, slotId); }
    }
  }

  lemma {:induction false} RaceGoesOn(ops: seq<Op>, db: Db, run: seq<Event>, slotId: Id)
    requires Valid(db) && FreshIds(db, ops) && Contested(db, ops, slotId) && Legal(ops, Initial(db, ops), run)
    ensures RaceOn(ops, After(ops, Initial(db, ops), run), run, slotId)
  {
    if run != [] {
      var front, e := run[..|run| - 1], run[|run| - 1];
      assert run == front + [e];
      RaceGoesOn(ops, db, front, slotId);
      ReachableInv(ops, db, front);
      RowsAreAccounted(ops, db, front);
      StepKeepsRaceOn(ops, db, After(ops, Initial(db, ops), front), front, e, slotId);
    }
  }

  /** N racers: in every complete run in which at least one attempt on the slot was not made to
      fail, exactly one attempt succeeds, and every other that was not made to fail returns
      ErrSlotTaken. Other calls may interleave as they like, with any guards. */
  lemma ExactlyOneWins(ops: seq<Op>, db: Db, run: seq<Event>, slotId: Id, survivor: nat) returns (winner: nat)
    requires Valid(db) && FreshIds(db, ops) && Contested(db, ops, slotId)
    requires Legal(ops, Initial(db, ops), run) && Complete(After(ops, Initial(db, ops), run))
    requires survivor < |ops| && Racer(ops[survivor], slotId) && !MadeToFail(run, survivor)
    ensures winner < |ops| && Racer(ops[winner], slotId)
    ensures var calls := After(ops, Initial(db, ops), run).calls;
            && |calls| == |ops|
            && (forall t :: 0 <= t < |ops| && Racer(ops[t], slotId) ==> (calls[t] == Ended(Done) <==> t == winner))
            && (forall t :: 0 <= t < |ops| && Racer(ops[t], slotId) && !MadeToFail(run, t) && t != winner ==>
                  calls[t] == Ended(Failed(ERR_SLOT_TAKEN)))
  {
    var s := After(ops, Initial(db, ops), run);
    ReachableInv(ops, db, run);
    RaceGoesOn(ops, db, run, slotId);
    winner := survivor;
    if !Won(ops, s, slotId, survivor) {
      RowsAreAccounted(ops, db, run);
      winner := BookedMeansWon(ops, db, s, slotId);
    }
    forall t: nat | t < |ops| && Racer(ops[t], slotId)
      ensures s.calls[t] == Ended(Done) <==> t == winner
      ensures !MadeToFail(run, t) && t != winner ==> s.calls[t] == Ended(Failed(ERR_SLOT_TAKEN))
    {
      if Won(ops, s, slotId, t) { AtMostOneWins(ops, db, run, slotId, t, winner); }
    }
  }
}
