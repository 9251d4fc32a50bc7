/** No deadlock, and every run is finite. */
module Progress {
  import opened Schema
  import opened Transactions
  import opened Protocol
  import opened Serializability

  // ---- Deadlock freedom ----

  /** A call that waits holds no pending meeting, and every call it waits for holds one and does
      not wait itself. */
  lemma HoldersNeverWait(ops: seq<Op>, s: State, t: nat)
    requires Inv(ops, s) && t < |ops| && s.calls[t].Active?
    ensures Blocked(ops, s, t) ==> forall id :: !HoldsSlot(s.calls[t], id) && !HoldsMeeting(s.calls[t], id)
    ensures forall u :: 0 <= u < |ops| && u != t && Awaits(ops[t], s.calls[t], s.calls[u]) ==>
              Holder(ops[u], s.calls[u]) && !Blocked(ops, s, u)
  {
    HeldRows(s.db, ops[t], s.calls[t]);
    forall u | 0 <= u < |ops| && u != t && Awaits(ops[t], s.calls[t], s.calls[u])
      ensures Holder(ops[u], s.calls[u]) && !Blocked(ops, s, u)
    {
      HeldRows(s.db, ops[u], s.calls[u]);
    }
  }

  predicate Proceeds(ops: seq<Op>, s: State, e: Event) {
    Enabled(ops, s, e) && !e.Fail? && GuardsTruth(ops, s, e)
  }

  /** The event with which an unblocked call goes on: its guard, if it has one, reads the tables
      as they are. */
  function Onward(ops: seq<Op>, s: State, t: nat): Event
    requires |s.calls| == |ops| && t < |ops| && s.calls[t].Active?
  {
    if !ops[t].Transactional() then Statement(t, Booked(s.db))
    else if s.calls[t].pc == |Program(ops[t])| then Commit(t)
    else Statement(t, {})
  }

  lemma UnblockedProceeds(ops: seq<Op>, s: State, t: nat)
    requires Inv(ops, s) && t < |ops| && s.calls[t].Active? && !Blocked(ops, s, t)
    ensures Proceeds(ops, s, Onward(ops, s, t))
  {
    assert CallOk(s.db, ops[t], s.calls[t]);
  }

  /** While a call is unfinished, some call can go on without failing. */
  lemma SomeCallProceeds(ops: seq<Op>, s: State) returns (e: Event)
    requires Inv(ops, s) && !Complete(s)
    ensures Proceeds(ops, s, e)
  {
    var t :| 0 <= t < |s.calls| && s.calls[t].Active?;
    if Blocked(ops, s, t) {
      HoldersNeverWait(ops, s, t);
      var u :| 0 <= u < |ops| && u != t && Awaits(ops[t], s.calls[t], s.calls[u]);
      t := u;
    }
    UnblockedProceeds(ops, s, t);
    e := Onward(ops, s, t);
  }

  // ---- Termination ----

  /** Steps a call can still take: its remaining statements and the commit. */
  function StepsLeft(op: Op, call: Call): int {
    match call
    case Ended(_) => 0
    case Active(pc, _) => |Program(op)| + 1 - pc
  }

  function Sum(s: seq<int>): int {
    if s == [] then 0 else Sum(s[..|s| - 1]) + s[|s| - 1]
  }

  lemma {:induction false} SumAfterUpdate(s: seq<int>, i: nat, x: int)
    requires i < |s|
    ensures Sum(s[i := x]) == Sum(s) - s[i] + x
  {
    var n := |s| - 1;
    if i == n {
      assert s[i := x][..n] == s[..n];
    } else {
      SumAfterUpdate(s[..n], i, x);
      assert s[i := x][..n] == s[..n][i := x];
    }
  }

  lemma {:induction false} SumIsNatural(s: seq<int>)
    requires forall i :: 0 <= i < |s| ==> s[i] >= 0
    ensures Sum(s) >= 0
  {
    if s != [] { SumIsNatural(s[..|s| - 1]); }
  }

  function StepsLeftEach(ops: seq<Op>, calls: seq<Call>): seq<int>
    requires |ops| == |calls|
  {
    seq(|ops|, t requires 0 <= t < |ops| => StepsLeft(ops[t], calls[t]))
  }

  function TotalLeft(ops: seq<Op>, calls: seq<Call>): int
    requires |ops| == |calls|
  {
    Sum(StepsLeftEach(ops, calls))
  }

  lemma OneStepLess(ops: seq<Op>, s: State, e: Event)
    requires Inv(ops, s) && Enabled(ops, s, e)
    ensures StepsLeft(ops[e.call], Next(ops, s, e).calls[e.call]) < StepsLeft(ops[e.call], s.calls[e.call])
  {
    assert CallOk(s.db, ops[e.call], s.calls[e.call]);
  }

  lemma StepUsesOne(ops: seq<Op>, s: State, e: Event)
    requires Inv(ops, s) && Enabled(ops, s, e)
    ensures TotalLeft(ops, Next(ops, s, e).calls) < TotalLeft(ops, s.calls)
  {
    var t, calls, calls' := e.call, s.calls, Next(ops, s, e).calls;
    NextTouchesOneCall(ops, s, e);
    OneStepLess(ops, s, e);
    assert StepsLeftEach(ops, calls') == StepsLeftEach(ops, calls)[t := StepsLeft(ops[t], calls'[t])];
    SumAfterUpdate(StepsLeftEach(ops, calls), t, StepsLeft(ops[t], calls'[t]));
  }

  lemma TotalIsNatural(ops: seq<Op>, s: State)
    requires Inv(ops, s)
    ensures TotalLeft(ops, s.calls) >= 0
  {
    forall t | 0 <= t < |ops| ensures StepsLeft(ops[t], s.calls[t]) >= 0 {
      assert CallOk(s.db, ops[t], s.calls[t]);
    }
    SumIsNatural(StepsLeftEach(ops, s.calls));
  }

  /** No run is longer than the calls have statements and commits. */
  lemma {:induction false} RunsAreBounded(ops: seq<Op>, db: Db, run: seq<Event>)
    requires Valid(db) && FreshIds(db, ops) && Legal(ops, Initial(db, ops), run)
    ensures |run| + TotalLeft(ops, After(ops, Initial(db, ops), run).calls) <= TotalLeft(ops, Initial(db, ops).calls)
    ensures |run| <= TotalLeft(ops, Initial(db, ops).calls)
  {
    if run != [] {
      var front := run[..|run| - 1];
      RunsAreBounded(ops, db, front);
      ReachableInv(ops, db, front);
      StepUsesOne(ops, After(ops, Initial(db, ops), front), run[|run| - 1]);
    }
    ReachableInv(ops, db, run);
    TotalIsNatural(ops, After(ops, Initial(db, ops), run));
  }

  /** How many events of the run are the call's. */
  function EventsOf(run: seq<Event>, t: nat): nat {
    if run == [] then 0 else EventsOf(run[..|run| - 1], t) + if run[|run| - 1].call == t then 1 else 0
  }

  /** A booking takes at most its insert, one statement per attendee and its commit, an offer one
      statement per row and its commit, anything else one statement. */
  lemma EventsAreBounded(ops: seq<Op>, db: Db, run: seq<Event>, t: nat)
    requires Valid(db) && FreshIds(db, ops) && Legal(ops, Initial(db, ops), run) && t < |ops|
    ensures EventsOf(run, t) <= if ops[t].BookMeeting? then |ops[t].attendees| + 2
                                else if ops[t].CreateAvailability? then |Offered(ops[t])| + 1 else 1
  {
    EventsUseSteps(ops, db, run, t);
    ReachableInv(ops, db, run);
    assert CallOk(After(ops, Initial(db, ops), run).db, ops[t], After(ops, Initial(db, ops), run).calls[t]);
  }

  lemma {:induction false} EventsUseSteps(ops: seq<Op>, db: Db, run: seq<Event>, t: nat)
    requires Valid(db) && FreshIds(db, ops) && Legal(ops, Initial(db, ops), run) && t < |ops|
    ensures var s := After(ops, Initial(db, ops), run);
            |s.calls| == |ops| && EventsOf(run, t) + StepsLeft(ops[t], s.calls[t]) <= |Program(ops[t])| + 1
  {
    if run != [] {
      var front, e := run[..|run| - 1], run[|run| - 1];
      var before := After(ops, Initial(db, ops), front);
      EventsUseSteps(ops, db, front, t);
      ReachableInv(ops, db, front);
      NextTouchesOneCall(ops, before, e);
      OneStepLess(ops, before, e);
    }
  }

  lemma AppendEvent(ops: seq<Op>, start: State, run: seq<Event>, e: Event)
    requires Legal(ops, start, run) && Enabled(ops, After(ops, start, run), e)
    ensures Legal(ops, start, run + [e])
    ensures After(ops, start, run + [e]) == Next(ops, After(ops, start, run), e)
    ensures Atomic(ops, start, run) && GuardsTruth(ops, After(ops, start, run), e) ==> Atomic(ops, start, run + [e])
  {
  }

  /** `whole` goes on from `run` without another failure. */
  predicate Continues(run: seq<Event>, whole: seq<Event>) {
    run <= whole && forall i :: |run| <= i < |whole| ==> !whole[i].Fail?
  }

  lemma OneMoreEvent(ops: seq<Op>, db: Db, run: seq<Event>) returns (e: Event)
    requires Valid(db) && FreshIds(db, ops) && Legal(ops, Initial(db, ops), run)
    requires !Complete(After(ops, Initial(db, ops), run))
    ensures !e.Fail? && Legal(ops, Initial(db, ops), run + [e])
    ensures Atomic(ops, Initial(db, ops), run) ==> Atomic(ops, Initial(db, ops), run + [e])
    ensures |run| < TotalLeft(ops, Initial(db, ops).calls)
  {
    ReachableInv(ops, db, run);
    e := SomeCallProceeds(ops, After(ops, Initial(db, ops), run));
    AppendEvent(ops, Initial(db, ops), run, e);
    RunsAreBounded(ops, db, run + [e]);
  }

  /** From every reachable state the calls can all finish, with no further failure and with
      truthful guards. */
  lemma {:induction false} EveryRunCanFinish(ops: seq<Op>, db: Db, run: seq<Event>) returns (whole: seq<Event>)
    requires Valid(db) && FreshIds(db, ops) && Legal(ops, Initial(db, ops), run)
    ensures Continues(run, whole)
    ensures Legal(ops, Initial(db, ops), whole) && Complete(After(ops, Initial(db, ops), whole))
    ensures Atomic(ops, Initial(db, ops), run) ==> Atomic(ops, Initial(db, ops), whole)
    decreases TotalLeft(ops, Initial(db, ops).calls) - |run|
  {
    if Complete(After(ops, Initial(db, ops), run)) {
      whole := run;
    } else {
      var e := OneMoreEvent(ops, db, run);
      whole := EveryRunCanFinish(ops, db, run + [e]);
    }
  }

  /** A call that ended before another one ended comes first in the serial order, so the order
      respects real time: a call that returned before another began precedes it. */
  lemma {:induction false} CompletionsOnlyGrow(ops: seq<Op>, start: State, run: seq<Event>, k: nat)
    requires k <= |run|
    ensures Completions(ops, start, run[..k]) <= Completions(ops, start, run)
    decreases |run| - k
  {
    if k == |run| {
      assert run[..k] == run;
    } else {
      var front := run[..|run| - 1];
      CompletionsOnlyGrow(ops, start, front, k);
      assert front[..k] == run[..k];
    }
  }

  lemma {:induction false} PrefixOfRun(ops: seq<Op>, start: State, run: seq<Event>, k: nat)
    requires k <= |run| && Legal(ops, start, run)
    ensures Legal(ops, start, run[..k])
    ensures Atomic(ops, start, run) ==> Atomic(ops, start, run[..k])
    decreases |run| - k
  {
    if k == |run| {
      assert run[..k] == run;
    } else {
      PrefixOfRun(ops, start, run[..|run| - 1], k);
      assert run[..|run| - 1][..k] == run[..k];
    }
  }

  lemma SerialOrderRespectsRealTime(ops: seq<Op>, db: Db, run: seq<Event>, k: nat, i: nat, j: nat)
    requires Legal(ops, Initial(db, ops), run) && k <= |run|
    requires i < |Completions(ops, Initial(db, ops), run)| && j < |Completions(ops, Initial(db, ops), run)|
    requires var s, history := After(ops, Initial(db, ops), run[..k]), Completions(ops, Initial(db, ops), run);
             && history[i].call < |s.calls| && s.calls[history[i].call].Ended?
             && history[j].call < |s.calls| && s.calls[history[j].call].Active?
    ensures i < j
  {
    var start := Initial(db, ops);
    var earlier, history := Completions(ops, start, run[..k]), Completions(ops, start, run);
    PrefixOfRun(ops, start, run, k);
    CompletionsAreEnded(ops, start, run);
    CompletionsAreEnded(ops, start, run[..k]);
    CompletionsOnlyGrow(ops, start, run, k);
    PrefixComesFirst(After(ops, start, run[..k]), earlier, history, i, j);
  }

  lemma PrefixComesFirst(s: State, earlier: seq<Entry>, history: seq<Entry>, i: nat, j: nat)
    requires ListsEnded(s, earlier) && earlier <= history
    requires forall m, n :: 0 <= m < n < |history| ==> history[m].call != history[n].call
    requires i < |history| && history[i].call < |s.calls| && s.calls[history[i].call].Ended?
    requires j < |history| && history[j].call < |s.calls| && s.calls[history[j].call].Active?
    ensures i < j
  {
  }
}
