/** Runs that some serial history explains. */
module SomeOrder {
  import opened GoErrors
  import opened Schema
  import opened Transactions
  import opened Protocol
  import opened Serializability
  import opened Progress
  import opened Provenance
  import opened Reachability
  import opened Guarantees
  import opened Contention
  import opened Snapshots
  import opened Reordering
  import opened RealTime

  /** The step deletes a slot although it is booked, because its guard has missed the booking. */
  predicate DeletesBooked(ops: seq<Op>, s: State, e: Event) {
    e.call < |ops| && ops[e.call].Delete? && Overrides(ops, s, e)
  }

  predicate KeepsBooked(ops: seq<Op>, start: State, run: seq<Event>) {
    run == [] ||
    var last := |run| - 1;
    KeepsBooked(ops, start, run[..last]) && !DeletesBooked(ops, After(ops, start, run[..last]), run[last])
  }

  /** Only calls that the run made to fail fail in the history, and with the same error. */
  predicate NoInventedFaults(run: seq<Event>, history: seq<Entry>) {
    forall i :: 0 <= i < |history| && history[i].fault != Nil ==> Fail(history[i].call, history[i].fault) in run
  }

  /** The history explains what the run leaves and returns. */
  ghost predicate ExplainsRun(ops: seq<Op>, db: Db, run: seq<Event>, history: seq<Entry>) {
    Explains(db, ops, history, After(ops, Initial(db, ops), run)) && NoInventedFaults(run, history)
  }

  ghost predicate SomeOrderExplains(ops: seq<Op>, db: Db, run: seq<Event>) {
    exists history :: ExplainsRun(ops, db, run, history)
  }

  /** Some such history puts no call after one that began only when it had ended. */
  ghost predicate RealTimeOrderExplains(ops: seq<Op>, db: Db, run: seq<Event>, began: seq<nat>) {
    exists history :: ExplainsRun(ops, db, run, history) && KeepsRealTime(ops, db, run, began, history)
  }

  ghost predicate KeepsRealTime(ops: seq<Op>, db: Db, run: seq<Event>, began: seq<nat>, history: seq<Entry>) {
    var ends := EndTimes(ops, Initial(db, ops), run);
    Timed(ends, history) && Timed(began, history) && InRealTime(began, ends, history)
  }

  ghost predicate KeepsBookingsFirst(ops: seq<Op>, db: Db, run: seq<Event>, history: seq<Entry>) {
    var ends := EndTimes(ops, Initial(db, ops), run);
    Timed(ends, history) && BookingsLead(ops, ends, history)
  }

  /** In any serial history that explains the state, a booking made since the start has an entry. */
  lemma BookingEntry(ops: seq<Op>, db: Db, history: seq<Entry>, s: State, slotId: Id) returns (j: nat)
    requires Explains(db, ops, history, s) && MeetingsAccounted(db, ops, s)
    requires slotId in Booked(s.db) && slotId !in Booked(db)
    ensures BooksAt(db, ops, history, j, slotId) && Won(ops, s, slotId, history[j].call)
  {
    var t := BookedMeansWon(ops, db, s, slotId);
    assert s.calls[t].Ended?;
    j :| 0 <= j < |history| && history[j].call == t;
    assert AnswersAt(db, ops, history, s, j);
    BookingOutcome(SerialDb(db, ops, history[..j]), ops[t]);
  }

  lemma WrongGuardMissedBooking(ops: seq<Op>, db: Db, s: State, e: Event)
    requires Enabled(ops, s, e) && HonestStep(ops, db, s, e) && !GuardsTruth(ops, s, e) && !DeletesBooked(ops, s, e)
    ensures e.Statement? && ops[e.call].Update?
    ensures ops[e.call].slotId in Booked(s.db) && ops[e.call].slotId !in Booked(db)
    ensures var op := ops[e.call];
            Next(ops, s, e) == State(Overwrite(s.db, op).0, s.calls[e.call := Ended(Overwrite(s.db, op).1)])
  {
  }

  // ---- One more event ----

  lemma FaultsOfFront(front: seq<Event>, e: Event, history: seq<Entry>)
    requires NoInventedFaults(front, history)
    ensures NoInventedFaults(front + [e], history)
    ensures NoInventedFaults(front + [e], history + [EntryOf(e)])
  {
    assert e in front + [e];
  }

  lemma FaultsOfInserted(run: seq<Event>, history: seq<Entry>, j: nat, t: nat)
    requires NoInventedFaults(run, history) && j <= |history|
    ensures NoInventedFaults(run, Inserted(history, j, t))
  {
    var longer := Inserted(history, j, t);
    forall i | 0 <= i < |longer| && longer[i].fault != Nil ensures Fail(longer[i].call, longer[i].fault) in run {
      InsertedAt(history, j, t, i);
    }
  }

  /** The call that ends now ends last. */
  lemma EndsLast(ops: seq<Op>, db: Db, front: seq<Event>, e: Event, history: seq<Entry>)
    requires Valid(db) && FreshIds(db, ops) && Legal(ops, Initial(db, ops), front + [e])
    requires ListsEnded(After(ops, Initial(db, ops), front), history)
    ensures Timed(EndTimes(ops, Initial(db, ops), front), history)
    ensures var before := After(ops, Initial(db, ops), front);
            && |before.calls| == |ops| && Enabled(ops, before, e)
            && After(ops, Initial(db, ops), front + [e]) == Next(ops, before, e)
            && var start := Initial(db, ops);
               LaterEnd(EndTimes(ops, start, front), EndTimes(ops, start, front + [e]), history, e.call)
  {
    var start, run := Initial(db, ops), front + [e];
    assert run[..|run| - 1] == front && run[|run| - 1] == e;
    ReachableInv(ops, db, front);
    forall i | 0 <= i < |history| ensures EndTime(ops, start, front, history[i].call) <= |front| {
      EndsInTime(ops, start, front, history[i].call);
    }
  }

  lemma BegunBeforeEnded(ops: seq<Op>, db: Db, run: seq<Event>, began: seq<nat>, history: seq<Entry>)
    requires Valid(db) && FreshIds(db, ops) && Legal(ops, Initial(db, ops), run)
    requires Timely(ops, Initial(db, ops), run, began) && ListsEnded(After(ops, Initial(db, ops), run), history)
    ensures var ends := EndTimes(ops, Initial(db, ops), run);
            && Timed(ends, history) && Timed(began, history)
            && forall i :: 0 <= i < |history| ==> began[history[i].call] < ends[history[i].call]
  {
    ReachableInv(ops, db, run);
    forall i | 0 <= i < |history|
      ensures began[history[i].call] < EndTime(ops, Initial(db, ops), run, history[i].call)
    {
      BeginsBeforeItEnds(ops, Initial(db, ops), run, began, history[i].call);
    }
  }

  lemma AppendedInTime(ops: seq<Op>, db: Db, front: seq<Event>, e: Event, began: seq<nat>, history: seq<Entry>)
    requires Valid(db) && FreshIds(db, ops) && Legal(ops, Initial(db, ops), front + [e])
    requires ListsEnded(After(ops, Initial(db, ops), front), history)
    requires Timely(ops, Initial(db, ops), front + [e], began) && KeepsRealTime(ops, db, front, began, history)
    ensures KeepsRealTime(ops, db, front + [e], began, history)
    ensures KeepsRealTime(ops, db, front + [e], began, history + [EntryOf(e)])
  {
    var start, run := Initial(db, ops), front + [e];
    assert run[..|run| - 1] == front;
    PrefixOfRun(ops, start, run, |front|);
    EndsLast(ops, db, front, e, history);
    TimelyFront(ops, start, run, began);
    BegunBeforeEnded(ops, db, front, began, history);
    AppendInRealTime(began, EndTimes(ops, start, front), EndTimes(ops, start, run), history, EntryOf(e));
  }

  lemma AppendedFirst(ops: seq<Op>, db: Db, front: seq<Event>, e: Event, history: seq<Entry>)
    requires Valid(db) && FreshIds(db, ops) && Legal(ops, Initial(db, ops), front + [e])
    requires ListsEnded(After(ops, Initial(db, ops), front), history) && KeepsBookingsFirst(ops, db, front, history)
    ensures KeepsBookingsFirst(ops, db, front + [e], history)
    ensures KeepsBookingsFirst(ops, db, front + [e], history + [EntryOf(e)])
  {
    EndsLast(ops, db, front, e, history);
    var start := Initial(db, ops);
    AppendLeads(ops, EndTimes(ops, start, front), EndTimes(ops, start, front + [e]), history, EntryOf(e));
  }

  /** The booking that a guard has missed had not ended when the call with that guard began. */
  lemma MissedBookingEndsLater(ops: seq<Op>, db: Db, front: seq<Event>, e: Event, began: seq<nat>, slotId: Id, b: nat)
    requires Valid(db) && FreshIds(db, ops) && Legal(ops, Initial(db, ops), front + [e])
    requires Timely(ops, Initial(db, ops), front + [e], began)
    requires GuardMatters(ops, After(ops, Initial(db, ops), front), e)
    requires ops[e.call].slotId == slotId && slotId !in e.seen
    requires Won(ops, After(ops, Initial(db, ops), front), slotId, b)
    ensures began[e.call] < EndTime(ops, Initial(db, ops), front, b)
  {
    var start, run, n := Initial(db, ops), front + [e], |front|;
    assert run[..n] == front && run[n] == e;
    PrefixOfRun(ops, start, run, n);
    assert EventIsTimely(ops, start, run, began, n);
    var k: nat :| began[e.call] <= k <= n && (slotId in e.seen <==> BookedAfterEvents(ops, start, run, k, slotId));
    assert run[..k] == front[..k];
    UnbookedIsNotWon(ops, db, front, k, slotId, b);
    EndsLater(ops, start, front, k, b);
  }

  /** If the slot was not booked after k events, although it is there, it had not been won. */
  lemma UnbookedIsNotWon(ops: seq<Op>, db: Db, run: seq<Event>, k: nat, slotId: Id, b: nat)
    requires Valid(db) && FreshIds(db, ops) && Legal(ops, Initial(db, ops), run) && k <= |run|
    requires var s := After(ops, Initial(db, ops), run); slotId in s.db.slots && Won(ops, s, slotId, b)
    requires slotId !in Booked(After(ops, Initial(db, ops), run[..k]).db)
    ensures var early := After(ops, Initial(db, ops), run[..k]); b < |early.calls| && early.calls[b].Active?
  {
    var start := Initial(db, ops);
    var early := After(ops, start, run[..k]);
    PrefixOfRun(ops, start, run, k);
    ReachableInv(ops, db, run[..k]);
    if early.calls[b].Ended? {
      EndedStays(ops, start, run, k, b);
      WonIsSettled(ops, db, run[..k], slotId, b);
      SettledStays(ops, db, run, k, slotId);
    }
  }

  lemma InsertedInTime(ops: seq<Op>, db: Db, front: seq<Event>, e: Event, began: seq<nat>, history: seq<Entry>, j: nat)
    requires Valid(db) && FreshIds(db, ops) && Legal(ops, Initial(db, ops), front + [e])
    requires ListsEnded(After(ops, Initial(db, ops), front), history) && KeepsBookingsFirst(ops, db, front, history)
    requires Timely(ops, Initial(db, ops), front + [e], began) && KeepsRealTime(ops, db, front, began, history)
    requires j < |history| && history[j].call < |ops| && e.call < |ops|
    requires GuardMatters(ops, After(ops, Initial(db, ops), front), e) && ops[e.call].slotId !in e.seen
    requires Won(ops, After(ops, Initial(db, ops), front), ops[e.call].slotId, history[j].call)
    ensures KeepsRealTime(ops, db, front + [e], began, Inserted(history, j, e.call))
  {
    var start, run := Initial(db, ops), front + [e];
    assert run[..|run| - 1] == front;
    PrefixOfRun(ops, start, run, |front|);
    EndsLast(ops, db, front, e, history);
    TimelyFront(ops, start, run, began);
    BegunBeforeEnded(ops, db, front, began, history);
    MissedBookingEndsLater(ops, db, front, e, began, ops[e.call].slotId, history[j].call);
    InsertInRealTime(ops, began, EndTimes(ops, start, front), EndTimes(ops, start, run), history, j, e.call);
  }

  lemma InsertedFirst(ops: seq<Op>, db: Db, front: seq<Event>, e: Event, history: seq<Entry>, j: nat)
    requires Valid(db) && FreshIds(db, ops) && Legal(ops, Initial(db, ops), front + [e]) && j <= |history|
    requires ListsEnded(After(ops, Initial(db, ops), front), history) && KeepsBookingsFirst(ops, db, front, history)
    requires e.call < |ops| && !ops[e.call].BookMeeting?
    ensures KeepsBookingsFirst(ops, db, front + [e], Inserted(history, j, e.call))
  {
    EndsLast(ops, db, front, e, history);
    var start := Initial(db, ops);
    InsertLeads(ops, EndTimes(ops, start, front), EndTimes(ops, start, front + [e]), history, j, e.call);
  }

  /** What the history built for a run is like. */
  ghost predicate WellOrdered(ops: seq<Op>, db: Db, run: seq<Event>, began: seq<nat>, history: seq<Entry>) {
    && ExplainsRun(ops, db, run, history) && KeepsBookingsFirst(ops, db, run, history)
    && (Timely(ops, Initial(db, ops), run, began) ==> KeepsRealTime(ops, db, run, began, history))
  }

  lemma AppendedWellOrdered(ops: seq<Op>, db: Db, front: seq<Event>, e: Event, began: seq<nat>, history: seq<Entry>)
    returns (longer: seq<Entry>)
    requires Valid(db) && FreshIds(db, ops) && Legal(ops, Initial(db, ops), front + [e])
    requires WellOrdered(ops, db, front, began, history)
    requires GuardsTruth(ops, After(ops, Initial(db, ops), front), e)
    ensures WellOrdered(ops, db, front + [e], began, longer)
  {
    var start, run := Initial(db, ops), front + [e];
    longer := AppendedExplains(ops, db, front, e, history);
    AppendedFirst(ops, db, front, e, history);
    if Timely(ops, start, run, began) {
      assert run[..|run| - 1] == front;
      TimelyFront(ops, start, run, began);
      AppendedInTime(ops, db, front, e, began, history);
    }
  }

  lemma AppendedExplains(ops: seq<Op>, db: Db, front: seq<Event>, e: Event, history: seq<Entry>)
    returns (longer: seq<Entry>)
    requires Valid(db) && FreshIds(db, ops) && Legal(ops, Initial(db, ops), front + [e])
    requires ExplainsRun(ops, db, front, history) && GuardsTruth(ops, After(ops, Initial(db, ops), front), e)
    ensures ExplainsRun(ops, db, front + [e], longer) && (longer == history || longer == history + [EntryOf(e)])
  {
    var before := After(ops, Initial(db, ops), front);
    LastStep(ops, db, front, e);
    ExplainsNext(ops, db, history, before, e);
    FaultsOfFront(front, e, history);
    if Next(ops, before, e).calls[e.call].Ended? {
      longer := history + [EntryOf(e)];
    } else {
      assert history + [] == history;
      longer := history;
    }
  }

  lemma LastStep(ops: seq<Op>, db: Db, front: seq<Event>, e: Event)
    requires Valid(db) && FreshIds(db, ops) && Legal(ops, Initial(db, ops), front + [e])
    ensures var before := After(ops, Initial(db, ops), front);
            && Inv(ops, before) && Enabled(ops, before, e)
            && After(ops, Initial(db, ops), front + [e]) == Next(ops, before, e)
  {
    assert (front + [e])[..|front|] == front && (front + [e])[|front|] == e;
    ReachableInv(ops, db, front);
  }

  lemma InsertedWellOrdered(ops: seq<Op>, db: Db, front: seq<Event>, e: Event, began: seq<nat>, history: seq<Entry>)
    returns (longer: seq<Entry>)
    requires Valid(db) && FreshIds(db, ops) && Legal(ops, Initial(db, ops), front + [e])
    requires WellOrdered(ops, db, front, began, history)
    requires var before := After(ops, Initial(db, ops), front);
             HonestStep(ops, db, before, e) && !GuardsTruth(ops, before, e) && !DeletesBooked(ops, before, e)
    ensures WellOrdered(ops, db, front + [e], began, longer)
  {
    var start, run := Initial(db, ops), front + [e];
    var before := After(ops, start, front);
    assert run[..|run| - 1] == front && run[|run| - 1] == e;
    WrongGuardMissedBooking(ops, db, before, e);
    RowsAreAccounted(ops, db, front);
    var j := BookingEntry(ops, db, history, before, ops[e.call].slotId);
    ExplainsInserted(db, ops, history, before, Next(ops, before, e), j, e.call);
    longer := Inserted(history, j, e.call);
    FaultsOfFront(front, e, history);
    FaultsOfInserted(run, history, j, e.call);
    InsertedFirst(ops, db, front, e, history, j);
    if Timely(ops, start, run, began) {
      TimelyFront(ops, start, run, began);
      InsertedInTime(ops, db, front, e, began, history, j);
    }
  }

  /** A run that never deletes a booked slot is explained by a serial history: the calls in the
      order in which they ended, but an update whose guard was wrong before the booking it has
      missed. That order respects real time. */
  lemma {:induction false} Reordered(ops: seq<Op>, db: Db, run: seq<Event>, began: seq<nat>)
    returns (history: seq<Entry>)
    requires Valid(db) && FreshIds(db, ops) && Legal(ops, Initial(db, ops), run)
    requires Honest(ops, Initial(db, ops), run) && KeepsBooked(ops, Initial(db, ops), run)
    ensures WellOrdered(ops, db, run, began, history)
  {
    history := [];
    if run != [] {
      var front, e := run[..|run| - 1], run[|run| - 1];
      assert run == front + [e];
      history := Reordered(ops, db, front, began);
      history := NextWellOrdered(ops, db, front, e, began, history);
    }
  }

  lemma NextWellOrdered(ops: seq<Op>, db: Db, front: seq<Event>, e: Event, began: seq<nat>, history: seq<Entry>)
    returns (longer: seq<Entry>)
    requires Valid(db) && FreshIds(db, ops) && Legal(ops, Initial(db, ops), front + [e])
    requires WellOrdered(ops, db, front, began, history)
    requires HonestStep(ops, db, After(ops, Initial(db, ops), front), e)
    requires !DeletesBooked(ops, After(ops, Initial(db, ops), front), e)
    ensures WellOrdered(ops, db, front + [e], began, longer)
  {
    if GuardsTruth(ops, After(ops, Initial(db, ops), front), e) {
      longer := AppendedWellOrdered(ops, db, front, e, began, history);
    } else {
      longer := InsertedWellOrdered(ops, db, front, e, began, history);
    }
  }

  // ---- Not serializable in any order ----

  /** No serial history lets two rivals for a slot both succeed. */
  lemma NoHistoryLetsBothTake(ops: seq<Op>, db: Db, history: seq<Entry>, s: State, slotId: Id, t: nat, u: nat)
    requires Valid(db) && FreshIds(db, ops) && |s.calls| == |ops| && t != u
    requires Takes(ops, s, slotId, t) && Takes(ops, s, slotId, u)
    ensures !Explains(db, ops, history, s)
  {
    if Explains(db, ops, history, s) {
      var run, serial := EveryHistoryHappens(ops, db, history);
      SameAnswers(db, ops, history, s, serial, t);
      SameAnswers(db, ops, history, s, serial, u);
      AtMostOneTakes(ops, db, run, slotId, t, u);
      assert false;
    }
  }

  lemma SameAnswers(db: Db, ops: seq<Op>, history: seq<Entry>, s: State, s': State, t: nat)
    requires Explains(db, ops, history, s) && Explains(db, ops, history, s')
    requires t < |s.calls| && s.calls[t].Ended?
    ensures t < |s'.calls| && s'.calls[t] == s.calls[t]
  {
    var i :| 0 <= i < |history| && history[i].call == t;
    assert AnswersAt(db, ops, history, s, i) && AnswersAt(db, ops, history, s', i);
  }

  lemma EndedCallStays(ops: seq<Op>, s: State, e: Event, t: nat)
    requires Enabled(ops, s, e) && t < |s.calls| && s.calls[t].Ended?
    ensures t < |Next(ops, s, e).calls| && Next(ops, s, e).calls[t] == s.calls[t]
  {
    NextTouchesOneCall(ops, s, e);
  }

  /** After a booked slot was deleted, both the booking and the delete have reported success. */
  lemma {:induction false} BothTook(ops: seq<Op>, db: Db, run: seq<Event>) returns (slotId: Id, t: nat, u: nat)
    requires Valid(db) && FreshIds(db, ops) && Legal(ops, Initial(db, ops), run)
    requires Honest(ops, Initial(db, ops), run) && !KeepsBooked(ops, Initial(db, ops), run)
    ensures var s := After(ops, Initial(db, ops), run);
            t != u && Takes(ops, s, slotId, t) && Takes(ops, s, slotId, u)
  {
    var start := Initial(db, ops);
    var front, e := run[..|run| - 1], run[|run| - 1];
    var before := After(ops, start, front);
    if !KeepsBooked(ops, start, front) {
      slotId, t, u := BothTook(ops, db, front);
      EndedCallStays(ops, before, e, t);
      EndedCallStays(ops, before, e, u);
    } else {
      slotId, u := ops[e.call].slotId, e.call;
      RowsAreAccounted(ops, db, front);
      t := BookedMeansWon(ops, db, before, slotId);
      EndedCallStays(ops, before, e, t);
    }
  }

  lemma NoHistoryExplainsLoss(ops: seq<Op>, db: Db, run: seq<Event>, history: seq<Entry>)
    requires Valid(db) && FreshIds(db, ops) && Legal(ops, Initial(db, ops), run)
    requires Honest(ops, Initial(db, ops), run) && !KeepsBooked(ops, Initial(db, ops), run)
    ensures !Explains(db, ops, history, After(ops, Initial(db, ops), run))
  {
    ReachableInv(ops, db, run);
    var slotId, t, u := BothTook(ops, db, run);
    NoHistoryLetsBothTake(ops, db, history, After(ops, Initial(db, ops), run), slotId, t, u);
  }

  /** Serializability: when every guard reads a snapshot taken during the run, some serial history,
      in which only calls made to fail fail, explains the tables and all outcomes if and only if no
      step deletes a booked slot. */
  lemma SerializableInSomeOrder(ops: seq<Op>, db: Db, run: seq<Event>)
    requires Valid(db) && FreshIds(db, ops) && Legal(ops, Initial(db, ops), run) && Honest(ops, Initial(db, ops), run)
    ensures SomeOrderExplains(ops, db, run) <==> KeepsBooked(ops, Initial(db, ops), run)
  {
    if KeepsBooked(ops, Initial(db, ops), run) {
      var history := Reordered(ops, db, run, []);
      assert ExplainsRun(ops, db, run, history);
    } else {
      forall history ensures !ExplainsRun(ops, db, run, history) {
        NoHistoryExplainsLoss(ops, db, run, history);
      }
    }
  }

  /** Strict serializability: when every guard reads a snapshot taken during its own call, that
      history can also be had in real time order, with no call after one that began only when it
      had ended. */
  lemma SerializableInRealTime(ops: seq<Op>, db: Db, run: seq<Event>, began: seq<nat>)
    requires Valid(db) && FreshIds(db, ops) && Legal(ops, Initial(db, ops), run)
    requires Timely(ops, Initial(db, ops), run, began)
    ensures RealTimeOrderExplains(ops, db, run, began) <==> KeepsBooked(ops, Initial(db, ops), run)
  {
    TimelyIsHonest(ops, db, run, began);
    if KeepsBooked(ops, Initial(db, ops), run) {
      var history := Reordered(ops, db, run, began);
      assert ExplainsRun(ops, db, run, history) && KeepsRealTime(ops, db, run, began, history);
    } else {
      forall history ensures !ExplainsRun(ops, db, run, history) {
        NoHistoryExplainsLoss(ops, db, run, history);
      }
    }
  }

  lemma TimelyIsHonest(ops: seq<Op>, db: Db, run: seq<Event>, began: seq<nat>)
    requires Valid(db) && FreshIds(db, ops) && Legal(ops, Initial(db, ops), run)
    requires Timely(ops, Initial(db, ops), run, began)
    ensures Honest(ops, Initial(db, ops), run)
  {
    forall i: nat | i < |run| ensures ReadsSnapshot(ops, Initial(db, ops), run, i) {
      assert EventIsTimely(ops, Initial(db, ops), run, began, i);
    }
    SnapshotsAreHonest(ops, db, run);
  }

  /** What real time order means: if a call had ended within the first k events, every call before
      it in the history began earlier than that. */
  lemma RealTimeMeans(ops: seq<Op>, db: Db, run: seq<Event>, began: seq<nat>, history: seq<Entry>,
                      i: nat, j: nat, k: nat)
    requires Legal(ops, Initial(db, ops), run) && Explains(db, ops, history, After(ops, Initial(db, ops), run))
    requires Valid(db) && FreshIds(db, ops) && KeepsRealTime(ops, db, run, began, history)
    requires i < j < |history| && k <= |run|
    requires var early, t := After(ops, Initial(db, ops), run[..k]), history[j].call;
             t < |early.calls| && early.calls[t].Ended?
    ensures began[history[i].call] < k
  {
    ReachableInv(ops, db, run);
    EndTimeExactly(ops, Initial(db, ops), run, k, history[j].call);
  }
}
