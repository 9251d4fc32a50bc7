/** When calls begin and end, and serial histories that respect it. */
module RealTime {
  import opened Transactions
  import opened Protocol
  import opened Serializability
  import opened Snapshots
  import opened Reordering

  /** After how many events the call has ended. */
  function EndTime(ops: seq<Op>, start: State, run: seq<Event>, t: nat): nat {
    if run == [] then 0
    else
      var before := After(ops, start, run[..|run| - 1]);
      if t < |before.calls| && before.calls[t].Ended? then EndTime(ops, start, run[..|run| - 1], t) else |run|
  }

  function EndTimes(ops: seq<Op>, start: State, run: seq<Event>): seq<nat> {
    seq(|ops|, t requires 0 <= t < |ops| => EndTime(ops, start, run, t))
  }

  /** Call t begins after the first began[t] events: its own events come later, and its guard reads
      no older snapshot. */
  ghost predicate Timely(ops: seq<Op>, start: State, run: seq<Event>, began: seq<nat>) {
    && |began| == |ops|
    && forall i: nat {:trigger EventIsTimely(ops, start, run, began, i)} :: i < |run| ==>
         EventIsTimely(ops, start, run, began, i)
  }

  ghost predicate EventIsTimely(ops: seq<Op>, start: State, run: seq<Event>, began: seq<nat>, i: nat)
    requires i < |run|
  {
    run[i].call < |began| && began[run[i].call] <= i && ReadsSince(ops, start, run, i, began[run[i].call])
  }

  // ---- Histories in time ----

  ghost predicate Timed(times: seq<nat>, history: seq<Entry>) {
    forall i :: 0 <= i < |history| ==> history[i].call < |times|
  }

  /** No call comes after one that began only when it had ended. */
  ghost predicate InRealTime(began: seq<nat>, ends: seq<nat>, history: seq<Entry>)
    requires Timed(began, history) && Timed(ends, history)
  {
    forall i, j :: 0 <= i < j < |history| ==> began[history[i].call] < ends[history[j].call]
  }

  /** What comes after a booking ended after it. */
  ghost predicate BookingsLead(ops: seq<Op>, ends: seq<nat>, history: seq<Entry>)
    requires Timed(ends, history) && |ends| == |ops|
  {
    forall i, j :: 0 <= i < j < |history| && ops[history[i].call].BookMeeting? ==>
      ends[history[i].call] <= ends[history[j].call]
  }

  /** The end times of the listed calls stay, and the new one is the latest. */
  ghost predicate LaterEnd(ends: seq<nat>, ends': seq<nat>, history: seq<Entry>, t: nat)
    requires Timed(ends, history)
  {
    && |ends'| == |ends| && t < |ends'|
    && forall i :: 0 <= i < |history| ==>
         ends'[history[i].call] == ends[history[i].call] && ends[history[i].call] <= ends'[t]
  }

  lemma AppendLeads(ops: seq<Op>, ends: seq<nat>, ends': seq<nat>, history: seq<Entry>, entry: Entry)
    requires Timed(ends, history) && |ends| == |ops| && LaterEnd(ends, ends', history, entry.call)
    requires BookingsLead(ops, ends, history)
    ensures Timed(ends', history + [entry]) && BookingsLead(ops, ends', history + [entry])
  {
  }

  lemma AppendInRealTime(began: seq<nat>, ends: seq<nat>, ends': seq<nat>, history: seq<Entry>, entry: Entry)
    requires Timed(ends, history) && |began| == |ends| && LaterEnd(ends, ends', history, entry.call)
    requires InRealTime(began, ends, history)
    requires forall i :: 0 <= i < |history| ==> began[history[i].call] < ends[history[i].call]
    ensures Timed(ends', history + [entry]) && Timed(began, history + [entry])
    ensures InRealTime(began, ends', history + [entry])
  {
  }

  lemma InsertTimed(times: seq<nat>, history: seq<Entry>, j: nat, t: nat)
    requires Timed(times, history) && t < |times| && j <= |history|
    ensures Timed(times, Inserted(history, j, t))
  {
    forall i | 0 <= i < |Inserted(history, j, t)| ensures Inserted(history, j, t)[i].call < |times| {
      InsertedAt(history, j, t, i);
    }
  }

  lemma InsertLeads(ops: seq<Op>, ends: seq<nat>, ends': seq<nat>, history: seq<Entry>, j: nat, t: nat)
    requires Timed(ends, history) && |ends| == |ops| && LaterEnd(ends, ends', history, t) && j <= |history|
    requires BookingsLead(ops, ends, history) && !ops[t].BookMeeting?
    ensures Timed(ends', Inserted(history, j, t)) && BookingsLead(ops, ends', Inserted(history, j, t))
  {
    var longer := Inserted(history, j, t);
    InsertTimed(ends', history, j, t);
    forall i, k | 0 <= i < k < |longer| && ops[longer[i].call].BookMeeting?
      ensures ends'[longer[i].call] <= ends'[longer[k].call]
    {
      InsertedAt(history, j, t, i);
      InsertedAt(history, j, t, k);
    }
  }

  lemma InsertInRealTime(ops: seq<Op>, began: seq<nat>, ends: seq<nat>, ends': seq<nat>, history: seq<Entry>,
                         j: nat, t: nat)
    requires Timed(ends, history) && |began| == |ends| == |ops| && LaterEnd(ends, ends', history, t)
    requires InRealTime(began, ends, history) && BookingsLead(ops, ends, history)
    requires forall i :: 0 <= i < |history| ==> began[history[i].call] < ends[history[i].call]
    requires j < |history| && ops[history[j].call].BookMeeting? && began[t] < ends[history[j].call]
    ensures Timed(ends', Inserted(history, j, t)) && Timed(began, Inserted(history, j, t))
    ensures InRealTime(began, ends', Inserted(history, j, t))
  {
    var longer := Inserted(history, j, t);
    InsertTimed(ends', history, j, t);
    InsertTimed(began, history, j, t);
    forall i, k | 0 <= i < k < |longer| ensures began[longer[i].call] < ends'[longer[k].call] {
      InsertedAt(history, j, t, i);
      InsertedAt(history, j, t, k);
    }
  }

  // ---- End times along a run ----

  lemma {:induction false} EndedStays(ops: seq<Op>, start: State, run: seq<Event>, k: nat, t: nat)
    requires Legal(ops, start, run) && k <= |run|
    requires var early := After(ops, start, run[..k]); t < |early.calls| && early.calls[t].Ended?
    ensures var s := After(ops, start, run); t < |s.calls| && s.calls[t] == After(ops, start, run[..k]).calls[t]
    decreases |run| - k
  {
    if k == |run| {
      assert run[..k] == run;
    } else {
      var front := run[..|run| - 1];
      assert front[..k] == run[..k];
      EndedStays(ops, start, front, k, t);
      NextTouchesOneCall(ops, After(ops, start, front), run[|run| - 1]);
    }
  }

  /** A call that has not ended after k events ends later. */
  lemma {:induction false} EndsLater(ops: seq<Op>, start: State, run: seq<Event>, k: nat, t: nat)
    requires Legal(ops, start, run) && k <= |run|
    requires var s := After(ops, start, run); t < |s.calls| && s.calls[t].Ended?
    requires var early := After(ops, start, run[..k]); t < |early.calls| && early.calls[t].Active?
    ensures EndTime(ops, start, run, t) > k
    decreases |run| - k
  {
    assert run[..|run|] == run;
    if k < |run| {
      var front := run[..|run| - 1];
      var before := After(ops, start, front);
      assert front[..k] == run[..k];
      NextTouchesOneCall(ops, before, run[|run| - 1]);
      if before.calls[t].Ended? { EndsLater(ops, start, front, k, t); }
    }
  }

  /** The end time of a call that has ended is the number of events after which it has. */
  lemma {:induction false} EndTimeExactly(ops: seq<Op>, start: State, run: seq<Event>, k: nat, t: nat)
    requires Legal(ops, start, run) && k <= |run| && t < |start.calls|
    requires var s := After(ops, start, run); t < |s.calls| && s.calls[t].Ended?
    requires start.calls[t].Active?
    ensures var early := After(ops, start, run[..k]);
            t < |early.calls| && (early.calls[t].Ended? <==> EndTime(ops, start, run, t) <= k)
    decreases |run| - k
  {
    CallsStay(ops, start, run, k);
    if After(ops, start, run[..k]).calls[t].Active? {
      EndsLater(ops, start, run, k, t);
    } else {
      EndsBy(ops, start, run, k, t);
    }
  }

  lemma {:induction false} CallsStay(ops: seq<Op>, start: State, run: seq<Event>, k: nat)
    requires Legal(ops, start, run) && k <= |run|
    ensures Legal(ops, start, run[..k])
    ensures |After(ops, start, run[..k]).calls| == |After(ops, start, run).calls|
    decreases |run| - k
  {
    assert run[..|run|] == run;
    if k < |run| {
      var front := run[..|run| - 1];
      assert front[..k] == run[..k];
      CallsStay(ops, start, front, k);
      NextTouchesOneCall(ops, After(ops, start, front), run[|run| - 1]);
    }
  }

  lemma {:induction false} EndsBy(ops: seq<Op>, start: State, run: seq<Event>, k: nat, t: nat)
    requires Legal(ops, start, run) && k <= |run|
    requires var early := After(ops, start, run[..k]); t < |early.calls| && early.calls[t].Ended?
    ensures EndTime(ops, start, run, t) <= k
    decreases |run| - k
  {
    if k == |run| {
      EndsInTime(ops, start, run, t);
    } else {
      var front := run[..|run| - 1];
      assert front[..k] == run[..k];
      EndedStays(ops, start, front, k, t);
      EndsBy(ops, start, front, k, t);
    }
  }

  lemma {:induction false} EndsInTime(ops: seq<Op>, start: State, run: seq<Event>, t: nat)
    ensures EndTime(ops, start, run, t) <= |run|
  {
    if run != [] { EndsInTime(ops, start, run[..|run| - 1], t); }
  }

  lemma EventOfFront(ops: seq<Op>, start: State, run: seq<Event>, began: seq<nat>, i: nat)
    requires i < |run| - 1 && EventIsTimely(ops, start, run, began, i)
    ensures EventIsTimely(ops, start, run[..|run| - 1], began, i)
  {
    var front, e := run[..|run| - 1], run[i];
    assert front[..i] == run[..i] && front[i] == e;
    if GuardMatters(ops, After(ops, start, run[..i]), e) {
      var slotId := ops[e.call].slotId;
      var k: nat :| began[e.call] <= k <= i && (slotId in e.seen <==> BookedAfterEvents(ops, start, run, k, slotId));
      assert front[..k] == run[..k];
      assert slotId in e.seen <==> BookedAfterEvents(ops, start, front, k, slotId);
    }
  }

  lemma TimelyFront(ops: seq<Op>, start: State, run: seq<Event>, began: seq<nat>)
    requires run != [] && Timely(ops, start, run, began)
    ensures Timely(ops, start, run[..|run| - 1], began)
  {
    var front := run[..|run| - 1];
    forall i: nat | i < |front| ensures EventIsTimely(ops, start, front, began, i) {
      EventOfFront(ops, start, run, began, i);
    }
  }

  /** A call begins before it ends. */
  lemma {:induction false} BeginsBeforeItEnds(ops: seq<Op>, start: State, run: seq<Event>, began: seq<nat>, t: nat)
    requires Legal(ops, start, run) && Timely(ops, start, run, began) && |start.calls| == |ops|
    requires var s := After(ops, start, run); t < |ops| && t < |s.calls| && s.calls[t].Ended?
    requires t < |start.calls| && start.calls[t].Active?
    ensures began[t] < EndTime(ops, start, run, t)
  {
    var front, n := run[..|run| - 1], |run| - 1;
    var before := After(ops, start, front);
    TimelyFront(ops, start, run, began);
    NextTouchesOneCall(ops, before, run[n]);
    if before.calls[t].Ended? {
      BeginsBeforeItEnds(ops, start, front, began, t);
    } else {
      assert EventIsTimely(ops, start, run, began, n);
    }
  }
}
