/** The converse of serializability: whatever running calls one at a time can do, some interleaved
    run does. */
module Reachability {
  import opened GoErrors
  import opened Schema
  import opened Transactions
  import opened Protocol
  import opened Serializability
  import opened Progress

  /** The run is legal, has truthful guards, completes the listed calls in that order and leads
      to this state. */
  ghost predicate Reaches(ops: seq<Op>, db: Db, run: seq<Event>, history: seq<Entry>, s: State) {
    && Legal(ops, Initial(db, ops), run) && Atomic(ops, Initial(db, ops), run)
    && Completions(ops, Initial(db, ops), run) == history
    && After(ops, Initial(db, ops), run) == s
  }

  /** No call other than t is under way. */
  predicate QuietBut(s: State, t: nat) {
    forall u :: 0 <= u < |s.calls| && u != t ==> s.calls[u].Ended? || s.calls[u] == Active(0, NOTHING)
  }

  predicate Quiet(s: State) {
    forall t :: 0 <= t < |s.calls| ==> s.calls[t].Ended? || s.calls[t] == Active(0, NOTHING)
  }

  lemma ReachesNext(ops: seq<Op>, db: Db, run: seq<Event>, history: seq<Entry>, s: State, e: Event)
    requires Reaches(ops, db, run, history, s) && Enabled(ops, s, e) && GuardsTruth(ops, s, e)
    ensures var s' := Next(ops, s, e);
            Reaches(ops, db, run + [e], history + if s'.calls[e.call].Ended? then [EntryOf(e)] else [], s')
  {
    AppendEvent(ops, Initial(db, ops), run, e);
    assert (run + [e])[..|run|] == run;
  }

  lemma OnwardIsEnabled(ops: seq<Op>, s: State, t: nat)
    requires Inv(ops, s) && t < |ops| && s.calls[t].Active? && QuietBut(s, t)
    ensures Proceeds(ops, s, Onward(ops, s, t))
  {
    UnblockedProceeds(ops, s, t);
  }

  /** The state after the whole of call t at once. */
  function Serially(ops: seq<Op>, s: State, t: nat): State
    requires t < |ops| && t < |s.calls|
  {
    var (after, outcome) := Serial(s.db, ops[t]);
    State(after, s.calls[t := Ended(outcome)])
  }

  lemma OnwardIsSerial(ops: seq<Op>, s: State, t: nat)
    requires Inv(ops, s) && t < |ops| && s.calls[t].Active? && QuietBut(s, t)
    requires Enabled(ops, s, Onward(ops, s, t))
    ensures var s' := Next(ops, s, Onward(ops, s, t));
            if s'.calls[t].Ended? then s' == Serially(ops, s, t)
            else |s'.calls| == |s.calls| && QuietBut(s', t) && Serially(ops, s', t) == Serially(ops, s, t)
  {
    var e := Onward(ops, s, t);
    var s' := Next(ops, s, e);
    OnwardIsEnabled(ops, s, t);
    NextTouchesOneCall(ops, s, e);
    assert s'.calls == s.calls[t := s'.calls[t]];
    if s'.calls[t].Ended? {
      EndingStepIsSerial(ops, s, e);
    } else {
      OtherStepsAreInvisible(ops, s, e);
    }
  }

  /** With no other call under way, a call can run to its end, and its outcome and effect are
      those of running it alone. */
  lemma {:induction false} FinishAlone(ops: seq<Op>, db: Db, run: seq<Event>, history: seq<Entry>, s: State, t: nat)
    returns (longer: seq<Event>)
    requires Valid(db) && FreshIds(db, ops) && Reaches(ops, db, run, history, s)
    requires |s.calls| == |ops| && t < |ops| && s.calls[t].Active? && QuietBut(s, t)
    ensures Reaches(ops, db, longer, history + [Entry(t, Nil)], Serially(ops, s, t)) && run <= longer
    decreases TotalLeft(ops, Initial(db, ops).calls) - |run|
  {
    ReachableInv(ops, db, run);
    OnwardIsEnabled(ops, s, t);
    OnwardIsSerial(ops, s, t);
    var e := Onward(ops, s, t);
    var s' := Next(ops, s, e);
    ReachesNext(ops, db, run, history, s, e);
    RunsAreBounded(ops, db, run + [e]);
    longer := run + [e];
    if s'.calls[t].Active? {
      assert history + [] == history;
      longer := FinishAlone(ops, db, longer, history, s', t);
    }
  }

  ghost predicate EachOnce(ops: seq<Op>, history: seq<Entry>) {
    && (forall i :: 0 <= i < |history| ==> history[i].call < |ops|)
    && (forall i, j :: 0 <= i < j < |history| ==> history[i].call != history[j].call)
  }

  /** One more call, run alone or made to fail before it starts. */
  lemma OneMoreEntry(ops: seq<Op>, db: Db, run: seq<Event>, history: seq<Entry>, s: State, entry: Entry)
    returns (longer: seq<Event>, s': State)
    requires Valid(db) && FreshIds(db, ops) && Reaches(ops, db, run, history, s) && Quiet(s)
    requires |s.calls| == |ops| && entry.call < |ops| && s.calls[entry.call].Active?
    ensures Reaches(ops, db, longer, history + [entry], s') && Quiet(s') && |s'.calls| == |ops|
  {
    if entry.fault == Nil {
      longer := FinishAlone(ops, db, run, history, s, entry.call);
      s' := Serially(ops, s, entry.call);
    } else {
      var e := Fail(entry.call, entry.fault);
      ReachesNext(ops, db, run, history, s, e);
      longer, s' := run + [e], Next(ops, s, e);
    }
  }

  /** Every serial history happens: for any calls in any order, each once, made to fail or not,
      some run with truthful guards completes exactly them in that order. */
  lemma {:induction false} EveryHistoryHappens(ops: seq<Op>, db: Db, history: seq<Entry>)
    returns (run: seq<Event>, s: State)
    requires Valid(db) && FreshIds(db, ops) && EachOnce(ops, history)
    ensures Reaches(ops, db, run, history, s) && Explains(db, ops, history, s)
    ensures Quiet(s) && |s.calls| == |ops|
  {
    if history == [] {
      run, s := [], Initial(db, ops);
    } else {
      var front, entry := history[..|history| - 1], history[|history| - 1];
      assert history == front + [entry];
      run, s := EveryHistoryHappens(ops, db, front);
      assert s.calls[entry.call].Active?;
      run, s := OneMoreEntry(ops, db, run, front, s, entry);
    }
    Serializable(ops, db, run);
  }
}
