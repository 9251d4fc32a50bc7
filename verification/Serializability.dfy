/** Every interleaving keeps the invariant and equals a serial run. */
module Serializability {
  import opened GoErrors
  import opened Schema
  import opened Transactions
  import opened Protocol

  // ---- One step keeps the invariant, whatever its guard saw ----

  lemma PendingStep(op: Op, pc: nat)
    requires op.Transactional() && pc < |Program(op)|
    ensures Pending(op, pc + 1) == Extend(Pending(op, pc), Program(op)[pc])
  {
    if op.BookMeeting? { PendingInvitation(op, pc); } else { PendingRow(op, pc); }
  }

  lemma PendingInvitation(op: Op, pc: nat)
    requires op.BookMeeting? && pc < |Program(op)|
    ensures Pending(op, pc + 1) == Extend(Pending(op, pc), Program(op)[pc])
  {
    if pc > 0 {
      InvitationsStep(op.meetingId, op.attendees, pc - 1);
    } else {
      assert Invitations(op.meetingId, op.attendees[..0]) == {};
    }
  }

  lemma PendingRow(op: Op, pc: nat)
    requires op.CreateAvailability? && pc < |Program(op)|
    ensures Pending(op, pc + 1) == Extend(Pending(op, pc), Program(op)[pc])
  {
    var rows := Offered(op);
    assert Program(op)[pc] == InsertSlot(rows[pc].id, rows[pc].slot);
    assert rows[..pc + 1][..pc] == rows[..pc] && rows[..pc + 1][pc] == rows[pc];
  }

  /** An accepted insert: the call advances and stays consistent with the tables. */
  lemma InsertKeepsCallOk(db: Db, op: Op, call: Call)
    requires op.Transactional() && call.Active? && CallOk(db, op, call) && call.pc < |Program(op)|
    requires Attempt(Merge(db, call.delta), Program(op)[call.pc], Nil).Ok?
    ensures CallOk(db, op, Active(call.pc + 1, Extend(call.delta, Program(op)[call.pc])))
  {
    var pc := call.pc;
    PendingStep(op, pc);
    PrefixReplays(db, op, call);
    ReplayStep(db, Program(op), NO_FAULTS, pc);
    if op.BookMeeting? {
      ReplayBooking(db, op, pc);
    } else {
      ReplayOffer(db, op, pc + 1);
    }
  }

  /** What a change of the tables must leave in place for a call in flight. */
  ghost predicate Undisturbed(before: Db, after: Db, op: Op, call: Call) {
    && before.users.Keys <= after.users.Keys
    && (Holder(op, call) ==> CanBook(after, op.meetingId, op.meeting.timeslotId))
    && (call.Active? && op.CreateAvailability? ==> UnusedIds(after, op))
  }

  lemma UndisturbedKeepsCallOk(before: Db, after: Db, op: Op, call: Call)
    requires CallOk(before, op, call) && Undisturbed(before, after, op, call)
    ensures CallOk(after, op, call)
  {
  }

  lemma CommittedBooking(db: Db, op: Op, call: Call)
    requires op.BookMeeting? && call.Active? && CallOk(db, op, call) && call.pc == |Program(op)|
    ensures Merge(db, call.delta) == db.(meetings := db.meetings[op.meetingId := op.meeting],
                                         participants := db.participants + Invitations(op.meetingId, op.attendees))
    ensures Booked(Merge(db, call.delta)) == Booked(db) + {op.meeting.timeslotId}
  {
    var after := Merge(db, call.delta);
    assert op.attendees[..call.pc - 1] == op.attendees;
    assert db.slots + map[] == db.slots;
    assert after.meetings == db.meetings[op.meetingId := op.meeting];
    forall id ensures id in Booked(after) <==> id in Booked(db) || id == op.meeting.timeslotId {
      if id in Booked(db) {
        var m :| m in db.meetings && db.meetings[m].timeslotId == id;
        assert m in after.meetings && after.meetings[m] == db.meetings[m];
      }
      if id == op.meeting.timeslotId { assert after.meetings[op.meetingId].timeslotId == id; }
    }
  }

  lemma CommittedOffer(db: Db, op: Op, call: Call)
    requires op.CreateAvailability? && call.Active? && CallOk(db, op, call) && call.pc == |Program(op)|
    ensures Merge(db, call.delta) == db.(slots := db.slots + RowMap(Offered(op)))
  {
    assert Offered(op)[..call.pc] == Offered(op);
    assert db.meetings + map[] == db.meetings && db.participants + {} == db.participants;
  }

  lemma BookingLeavesOthers(db: Db, op: Op, call: Call, op': Op, call': Call)
    requires op.BookMeeting? && call.Active? && CallOk(db, op, call) && call.pc == |Program(op)|
    requires CallOk(db, op', call') && Apart(op, call, op', call')
    ensures Undisturbed(db, Merge(db, call.delta), op', call')
  {
    CommittedBooking(db, op, call);
  }

  lemma OfferLeavesOthers(db: Db, op: Op, call: Call, op': Op, call': Call)
    requires op.CreateAvailability? && call.Active? && CallOk(db, op, call) && call.pc == |Program(op)|
    requires CallOk(db, op', call')
    requires forall i, j :: 0 <= i < |Offered(op)| && 0 <= j < |Offered(op')| ==>
               Offered(op)[i].id != Offered(op')[j].id
    ensures Undisturbed(db, Merge(db, call.delta), op', call')
  {
    CommittedOffer(db, op, call);
    RowMapKeys(Offered(op));
  }

  /** A commit does not disturb the other calls: a second holder sits on another slot with
      another id, and a second offer brings other ids. */
  lemma CommitLeavesOthers(ops: seq<Op>, s: State, t: nat, u: nat)
    requires Inv(ops, s) && Enabled(ops, s, Commit(t)) && u < |ops| && u != t
    ensures Undisturbed(s.db, Merge(s.db, s.calls[t].delta), ops[u], s.calls[u])
  {
    assert CallOk(s.db, ops[t], s.calls[t]) && CallOk(s.db, ops[u], s.calls[u]);
    assert Apart(ops[t], s.calls[t], ops[u], s.calls[u]);
    if ops[t].BookMeeting? {
      BookingLeavesOthers(s.db, ops[t], s.calls[t], ops[u], s.calls[u]);
    } else {
      OfferLeavesOthers(s.db, ops[t], s.calls[t], ops[u], s.calls[u]);
    }
  }

  lemma AutocommitLeavesOthers(ops: seq<Op>, s: State, t: nat, seen: set<Id>, u: nat)
    requires Inv(ops, s) && Enabled(ops, s, Statement(t, seen)) && !ops[t].Transactional() && u < |ops| && u != t
    ensures Undisturbed(s.db, Autocommit(s.db, ops[t], seen).0, ops[u], s.calls[u])
  {
    assert CallOk(s.db, ops[u], s.calls[u]);
    if ops[t].Delete? {
      CascadeKeepsValid(s.db, ops[t].slotId);
      HeldRows(s.db, ops[u], s.calls[u]);
      assert !Awaits(ops[t], s.calls[t], s.calls[u]);
    } else if ops[t].Update? {
      assert Autocommit(s.db, ops[t], seen).0.slots.Keys == s.db.slots.Keys;
    }
  }

  lemma AutocommitKeepsValid(db: Db, op: Op, seen: set<Id>)
    requires Valid(db) && !op.Transactional()
    ensures Valid(Autocommit(db, op, seen).0)
  {
  }

  lemma InsertLeavesOthersApart(ops: seq<Op>, s: State, t: nat, seen: set<Id>, u: nat)
    requires Inv(ops, s) && Enabled(ops, s, Statement(t, seen)) && ops[t].Transactional() && u < |ops| && u != t
    ensures var mine := Next(ops, s, Statement(t, seen)).calls[t];
            Apart(ops[t], mine, ops[u], s.calls[u]) && Apart(ops[u], s.calls[u], ops[t], mine)
  {
    assert Apart(ops[t], s.calls[t], ops[u], s.calls[u]);
    HeldRows(s.db, ops[u], s.calls[u]);
    if ops[t].BookMeeting? && s.calls[t].pc == 0 {
      assert !Awaits(ops[t], s.calls[t], s.calls[u]);
    }
  }

  /** The schema constraints and the bookkeeping survive every step, with guards evaluated on
      any snapshot at all. */
  lemma StepKeepsInv(ops: seq<Op>, s: State, e: Event)
    requires Inv(ops, s) && Enabled(ops, s, e)
    ensures Inv(ops, Next(ops, s, e))
  {
    var t, s' := e.call, Next(ops, s, e);
    var op, call := ops[t], s.calls[t];
    if e.Statement? && op.Transactional() {
      assert s'.db == s.db;
      if s'.calls[t].Active? { InsertKeepsCallOk(s.db, op, call); }
      forall u | 0 <= u < |ops| && u != t
        ensures Apart(op, s'.calls[t], ops[u], s.calls[u]) && Apart(ops[u], s.calls[u], op, s'.calls[t])
      {
        InsertLeavesOthersApart(ops, s, t, e.seen, u);
      }
    } else if e.Statement? {
      AutocommitKeepsValid(s.db, op, e.seen);
      forall u | 0 <= u < |ops| && u != t ensures CallOk(s'.db, ops[u], s'.calls[u]) {
        AutocommitLeavesOthers(ops, s, t, e.seen, u);
        UndisturbedKeepsCallOk(s.db, s'.db, ops[u], s.calls[u]);
      }
    } else if e.Commit? {
      PrefixReplays(s.db, op, call);
      ReplayKeepsValid(s.db, Program(op)[..call.pc], NO_FAULTS);
      forall u | 0 <= u < |ops| && u != t ensures CallOk(s'.db, ops[u], s'.calls[u]) {
        CommitLeavesOthers(ops, s, t, u);
        UndisturbedKeepsCallOk(s.db, s'.db, ops[u], s.calls[u]);
      }
    }
  }

  /** Main invariant: in every reachable state, under any guards, the schema constraints hold. */
  lemma {:induction false} ReachableInv(ops: seq<Op>, db: Db, run: seq<Event>)
    requires Valid(db) && FreshIds(db, ops) && Legal(ops, Initial(db, ops), run)
    ensures Inv(ops, After(ops, Initial(db, ops), run))
  {
    if run == [] {
      InitialInv(db, ops);
    } else {
      var front := run[..|run| - 1];
      ReachableInv(ops, db, front);
      StepKeepsInv(ops, After(ops, Initial(db, ops), front), run[|run| - 1]);
    }
  }

  // ---- The step that ends a call is the serial operation ----

  lemma RefusedStatementIsSerial(db: Db, op: Op, call: Call, err: Error)
    requires op.Transactional() && call.Active? && CallOk(db, op, call) && call.pc < |Program(op)|
    requires Attempt(Merge(db, call.delta), Program(op)[call.pc], Nil) == Result.Err(err)
    ensures Serial(db, op) == (db, Failed(err))
  {
    PrefixReplays(db, op, call);
    ReplayStep(db, Program(op), NO_FAULTS, call.pc);
    ReplayFailsEarly(db, Program(op), NO_FAULTS, call.pc + 1);
    ReplayErrorIsReal(db, Program(op), NO_FAULTS);
  }

  lemma CommitIsSerial(db: Db, op: Op, call: Call)
    requires op.Transactional() && call.Active? && CallOk(db, op, call) && call.pc == |Program(op)|
    ensures Serial(db, op) == (Merge(db, call.delta), Done)
  {
    PrefixReplays(db, op, call);
    assert Program(op)[..call.pc] == Program(op);
  }

  /** Where a call ends without a fault, its outcome is that of the whole operation run alone at
      that moment exactly if its guard, if it has one, was right; and then so is the change of
      the tables. */
  lemma EndingStepIsSerial(ops: seq<Op>, s: State, e: Event)
    requires Inv(ops, s) && Enabled(ops, s, e)
    requires !e.Fail? && Next(ops, s, e).calls[e.call].Ended?
    ensures Next(ops, s, e).calls[e.call].outcome == Serial(s.db, ops[e.call]).1 <==> GuardsTruth(ops, s, e)
    ensures GuardsTruth(ops, s, e) ==> Next(ops, s, e).db == Serial(s.db, ops[e.call]).0
  {
    var op, call := ops[e.call], s.calls[e.call];
    if e.Commit? {
      CommitIsSerial(s.db, op, call);
    } else if op.Transactional() {
      RefusedStatementIsSerial(s.db, op, call, Attempt(Merge(s.db, call.delta), Program(op)[call.pc], Nil).err);
    }
  }

  /** Any other step leaves the committed tables as they are. */
  lemma OtherStepsAreInvisible(ops: seq<Op>, s: State, e: Event)
    requires Enabled(ops, s, e)
    requires e.Fail? || Next(ops, s, e).calls[e.call].Active?
    ensures Next(ops, s, e).db == s.db
  {
  }

  // ---- Serial histories ----

  /** A call in a serial history; `fault` is Nil unless the call was made to fail. */
  datatype Entry = Entry(call: nat, fault: Error)

  /** The calls of a run in the order in which they ended. */
  function Completions(ops: seq<Op>, start: State, run: seq<Event>): seq<Entry> {
    if run == [] then []
    else
      var front, e := run[..|run| - 1], run[|run| - 1];
      var before := After(ops, start, front);
      Completions(ops, start, front) +
      if Enabled(ops, before, e) && Next(ops, before, e).calls[e.call].Ended?
      then [EntryOf(e)] else []
  }

  function SerialEntry(db: Db, ops: seq<Op>, entry: Entry): (Db, Outcome) {
    if entry.fault != Nil || entry.call >= |ops| then (db, Failed(entry.fault)) else Serial(db, ops[entry.call])
  }

  /** The tables after running the listed calls one after the other. */
  function SerialDb(db: Db, ops: seq<Op>, history: seq<Entry>): Db {
    if history == [] then db
    else SerialEntry(SerialDb(db, ops, history[..|history| - 1]), ops, history[|history| - 1]).0
  }

  /** The outcome of entry i in that serial run. */
  function SerialOutcome(db: Db, ops: seq<Op>, history: seq<Entry>, i: nat): Outcome
    requires i < |history|
  {
    SerialEntry(SerialDb(db, ops, history[..i]), ops, history[i]).1
  }

  /** The history lists exactly the calls that have ended, each once. */
  ghost predicate ListsEnded(s: State, history: seq<Entry>) {
    && (forall i :: 0 <= i < |history| ==> history[i].call < |s.calls| && s.calls[history[i].call].Ended?)
    && (forall i, j :: 0 <= i < j < |history| ==> history[i].call != history[j].call)
    && (forall t :: 0 <= t < |s.calls| && s.calls[t].Ended? ==> exists i :: 0 <= i < |history| && history[i].call == t)
  }

  /** Listed call i returned what it returns in the serial run of the history. */
  predicate AnswersAt(db: Db, ops: seq<Op>, history: seq<Entry>, s: State, i: nat)
    requires i < |history|
  {
    history[i].call < |s.calls| && s.calls[history[i].call] == Ended(SerialOutcome(db, ops, history, i))
  }

  ghost predicate AnswersSerially(db: Db, ops: seq<Op>, history: seq<Entry>, s: State) {
    forall i: nat :: i < |history| ==> AnswersAt(db, ops, history, s, i)
  }

  /** The state holds exactly what the serial run of the history leaves and returns. */
  ghost predicate Explains(db: Db, ops: seq<Op>, history: seq<Entry>, s: State) {
    ListsEnded(s, history) && s.db == SerialDb(db, ops, history) && AnswersSerially(db, ops, history, s)
  }

  function EntryOf(e: Event): Entry {
    Entry(e.call, if e.Fail? then e.err else Nil)
  }

  lemma NextTouchesOneCall(ops: seq<Op>, s: State, e: Event)
    requires Enabled(ops, s, e)
    ensures var s' := Next(ops, s, e);
            |s'.calls| == |s.calls| && forall t :: 0 <= t < |s.calls| && t != e.call ==> s'.calls[t] == s.calls[t]
  {
  }

  lemma ListsEndedStep(before: State, s: State, earlier: seq<Entry>, entry: Entry)
    requires ListsEnded(before, earlier) && |s.calls| == |before.calls|
    requires entry.call < |s.calls| && before.calls[entry.call].Active? && s.calls[entry.call].Ended?
    requires forall t :: 0 <= t < |s.calls| && t != entry.call ==> s.calls[t] == before.calls[t]
    ensures ListsEnded(s, earlier + [entry])
  {
    var history := earlier + [entry];
    forall t | 0 <= t < |s.calls| && s.calls[t].Ended? ensures exists i :: 0 <= i < |history| && history[i].call == t {
      if t == entry.call {
        assert history[|earlier|].call == t;
      } else {
        var i :| 0 <= i < |earlier| && earlier[i].call == t;
        assert history[i].call == t;
      }
    }
  }

  /** Under any guards, the completions of a run are the calls that have ended. */
  lemma {:induction false} CompletionsAreEnded(ops: seq<Op>, start: State, run: seq<Event>)
    requires Legal(ops, start, run) && forall t :: 0 <= t < |start.calls| ==> start.calls[t].Active?
    ensures ListsEnded(After(ops, start, run), Completions(ops, start, run))
  {
    if run != [] {
      var front, e := run[..|run| - 1], run[|run| - 1];
      var before, s := After(ops, start, front), After(ops, start, run);
      CompletionsAreEnded(ops, start, front);
      NextTouchesOneCall(ops, before, e);
      if s.calls[e.call].Ended? {
        ListsEndedStep(before, s, Completions(ops, start, front), EntryOf(e));
      } else {
        assert Completions(ops, start, run) == Completions(ops, start, front);
      }
    }
  }

  lemma EarlierAnswerStands(db: Db, ops: seq<Op>, earlier: seq<Entry>, before: State, entry: Entry, s: State, i: nat)
    requires ListsEnded(before, earlier) && |s.calls| == |before.calls| && i < |earlier|
    requires entry.call < |s.calls| && before.calls[entry.call].Active?
    requires forall t :: 0 <= t < |s.calls| && t != entry.call ==> s.calls[t] == before.calls[t]
    ensures AnswersAt(db, ops, earlier + [entry], s, i) <==> AnswersAt(db, ops, earlier, before, i)
  {
    var history := earlier + [entry];
    assert history[..i] == earlier[..i] && history[i] == earlier[i];
    assert earlier[i].call != entry.call;
  }

  /** An ending step adds an answer to the history; the earlier ones stand. */
  lemma AnswersStep(db: Db, ops: seq<Op>, earlier: seq<Entry>, before: State, entry: Entry, s: State)
    requires ListsEnded(before, earlier) && |s.calls| == |before.calls|
    requires entry.call < |s.calls| && before.calls[entry.call].Active?
    requires forall t :: 0 <= t < |s.calls| && t != entry.call ==> s.calls[t] == before.calls[t]
    ensures AnswersSerially(db, ops, earlier + [entry], s) <==>
            && AnswersSerially(db, ops, earlier, before)
            && s.calls[entry.call] == Ended(SerialEntry(SerialDb(db, ops, earlier), ops, entry).1)
  {
    var n, history := |earlier|, earlier + [entry];
    assert history[..n] == earlier && history[n] == entry;
    assert AnswersAt(db, ops, history, s, n) <==>
           s.calls[entry.call] == Ended(SerialEntry(SerialDb(db, ops, earlier), ops, entry).1);
    forall i: nat | i < n ensures AnswersAt(db, ops, history, s, i) <==> AnswersAt(db, ops, earlier, before, i) {
      EarlierAnswerStands(db, ops, earlier, before, entry, s, i);
    }
  }

  lemma EndingStepIsEntry(ops: seq<Op>, before: State, e: Event)
    requires Inv(ops, before) && Enabled(ops, before, e) && Next(ops, before, e).calls[e.call].Ended?
    ensures var s, entry := Next(ops, before, e), SerialEntry(before.db, ops, EntryOf(e));
            && (s.calls[e.call].outcome == entry.1 <==> GuardsTruth(ops, before, e))
            && (GuardsTruth(ops, before, e) ==> s.db == entry.0)
  {
    if !e.Fail? { EndingStepIsSerial(ops, before, e); }
  }

  /** One more step goes on being explained exactly if its guard was right. */
  lemma ExplainsNext(ops: seq<Op>, db: Db, history: seq<Entry>, before: State, e: Event)
    requires Explains(db, ops, history, before) && Inv(ops, before) && Enabled(ops, before, e)
    ensures var s := Next(ops, before, e);
            var longer := history + if s.calls[e.call].Ended? then [EntryOf(e)] else [];
            && (GuardsTruth(ops, before, e) ==> Explains(db, ops, longer, s))
            && (AnswersSerially(db, ops, longer, s) ==> GuardsTruth(ops, before, e))
  {
    var s := Next(ops, before, e);
    NextTouchesOneCall(ops, before, e);
    if s.calls[e.call].Ended? {
      EndingStepIsEntry(ops, before, e);
      AnswersStep(db, ops, history, before, EntryOf(e), s);
      ListsEndedStep(before, s, history, EntryOf(e));
      assert (history + [EntryOf(e)])[..|history|] == history;
    } else {
      OtherStepsAreInvisible(ops, before, e);
      ExplainsUnfinished(db, ops, history, before, s, e.call);
      assert history + [] == history;
    }
  }

  lemma ExplainsUnfinished(db: Db, ops: seq<Op>, history: seq<Entry>, before: State, s: State, t: nat)
    requires Explains(db, ops, history, before) && |s.calls| == |before.calls| && s.db == before.db
    requires t < |s.calls| && before.calls[t].Active? && s.calls[t].Active?
    requires forall u :: 0 <= u < |s.calls| && u != t ==> s.calls[u] == before.calls[u]
    ensures Explains(db, ops, history, s)
  {
    forall i: nat | i < |history| ensures AnswersAt(db, ops, history, s, i) {
      assert AnswersAt(db, ops, history, before, i);
    }
  }

  /** A wrong answer is never put right. */
  lemma WrongAnswersStay(ops: seq<Op>, db: Db, start: State, front: seq<Event>, e: Event)
    requires Legal(ops, start, front + [e]) && forall t :: 0 <= t < |start.calls| ==> start.calls[t].Active?
    requires AnswersSerially(db, ops, Completions(ops, start, front + [e]), After(ops, start, front + [e]))
    ensures AnswersSerially(db, ops, Completions(ops, start, front), After(ops, start, front))
  {
    var run := front + [e];
    assert run[..|run| - 1] == front;
    var before, s, history := After(ops, start, front), After(ops, start, run), Completions(ops, start, front);
    CompletionsAreEnded(ops, start, front);
    NextTouchesOneCall(ops, before, e);
    if s.calls[e.call].Ended? {
      AnswersStep(db, ops, history, before, EntryOf(e), s);
    } else {
      assert Completions(ops, start, run) == history;
      forall i: nat | i < |history| ensures AnswersAt(db, ops, history, before, i) {
        assert AnswersAt(db, ops, history, s, i);
      }
    }
  }

  /** Serializability: the committed tables and every returned outcome of an interleaved run are
      those of running the calls one at a time in the order in which they ended, if and only if
      every guard was right about its own slot. */
  lemma {:induction false} Serializable(ops: seq<Op>, db: Db, run: seq<Event>)
    requires Valid(db) && FreshIds(db, ops) && Legal(ops, Initial(db, ops), run)
    ensures var s, history := After(ops, Initial(db, ops), run), Completions(ops, Initial(db, ops), run);
            && (Explains(db, ops, history, s) <==> Atomic(ops, Initial(db, ops), run))
            && (AnswersSerially(db, ops, history, s) <==> Atomic(ops, Initial(db, ops), run))
  {
    var start := Initial(db, ops);
    if run != [] {
      var front, e := run[..|run| - 1], run[|run| - 1];
      assert run == front + [e];
      Serializable(ops, db, front);
      ReachableInv(ops, db, front);
      if Atomic(ops, start, front) {
        ExplainsNext(ops, db, Completions(ops, start, front), After(ops, start, front), e);
      } else if AnswersSerially(db, ops, Completions(ops, start, run), After(ops, start, run)) {
        WrongAnswersStay(ops, db, start, front, e);
        assert false;
      }
    }
  }
}
