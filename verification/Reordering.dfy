/** Serializability in some order. A statement that waits sees the tables as they were before it
    waited, so an UPDATE may overwrite a slot booked meanwhile. Such a run is still serializable,
    with the update put before the booking; one in which a DELETE removes a booked slot is not. */
module Reordering {
  import opened GoErrors
  import opened Schema
  import opened Transactions
  import opened Protocol
  import opened Serializability
  import opened Provenance
  import opened Guarantees

  // ---- A booked slot's row does not matter ----

  function WithRow(db: Db, id: Id, row: Slot): Db {
    db.(slots := db.slots[id := row])
  }

  lemma ExecuteIgnoresRow(db: Db, id: Id, row: Slot, st: Insert)
    requires id in db.slots
    ensures Execute(db, st).Ok? ==> id in Execute(db, st).db.slots && Execute(db, st).db.slots[id] == db.slots[id]
    ensures Execute(WithRow(db, id, row), st) ==
            if Execute(db, st).Ok? then Ok(WithRow(Execute(db, st).db, id, row)) else Execute(db, st)
  {
    assert Booked(WithRow(db, id, row)) == Booked(db);
  }

  lemma {:induction false} ReplayIgnoresRow(db: Db, id: Id, row: Slot, program: seq<Insert>)
    requires id in db.slots
    ensures var r := Replay(db, program, NO_FAULTS);
            && (r.Ok? ==> id in r.db.slots && r.db.slots[id] == db.slots[id])
            && Replay(WithRow(db, id, row), program, NO_FAULTS) == if r.Ok? then Ok(WithRow(r.db, id, row)) else r
  {
    if program != [] {
      var front, st := program[..|program| - 1], program[|program| - 1];
      ReplayIgnoresRow(db, id, row, front);
      var r := Replay(db, front, NO_FAULTS);
      if r.Ok? { ExecuteIgnoresRow(r.db, id, row, st); }
    }
  }

  /** An operation run alone neither reads nor changes the row of a slot that is booked; nor does a
      transaction the row of any slot that is there. */
  lemma SerialIgnoresRow(db: Db, op: Op, id: Id, row: Slot)
    requires id in db.slots && (op.Transactional() || id in Booked(db))
    ensures var (after, outcome) := Serial(db, op);
            && id in after.slots && after.slots[id] == db.slots[id]
            && Serial(WithRow(db, id, row), op) == (WithRow(after, id, row), outcome)
  {
    if op.Transactional() {
      ReplayIgnoresRow(db, id, row, Program(op));
    } else {
      AutocommitIgnoresRow(db, op, id, row);
    }
  }

  lemma AutocommitIgnoresRow(db: Db, op: Op, id: Id, row: Slot)
    requires !op.Transactional() && id in db.slots && id in Booked(db)
    ensures var (after, outcome) := Serial(db, op);
            && id in after.slots && after.slots[id] == db.slots[id]
            && Serial(WithRow(db, id, row), op) == (WithRow(after, id, row), outcome)
  {
    var after := Serial(db, op).0;
    assert Booked(WithRow(db, id, row)) == Booked(db);
    if op.Delete? {
      assert db.slots[id := row] - {op.slotId} == (db.slots - {op.slotId})[id := row] || op.slotId == id;
    } else if op.Update? && op.slotId != id && op.slotId in db.slots {
      var other := Revised(db.slots[op.slotId], op);
      assert db.slots[id := row][op.slotId := other] == db.slots[op.slotId := other][id := row];
    }
  }

  lemma BookedStays(db: Db, op: Op, id: Id)
    requires Valid(db) && id in Booked(db)
    ensures Valid(Serial(db, op).0) && id in Booked(Serial(db, op).0)
  {
    var after := Serial(db, op).0;
    SerialKeepsValid(db, op);
    if op.BookMeeting? {
      BookingOutcome(db, op);
      var m :| m in db.meetings && db.meetings[m].timeslotId == id;
      assert m in after.meetings && after.meetings[m] == db.meetings[m];
    } else if op.CreateAvailability? {
      OfferOutcome(db, op);
    } else if op.Delete? {
      CascadeKeepsValid(db, op.slotId);
    }
  }

  /** What the update does when its guard misses the booking. */
  function Overwrite(db: Db, op: Op): (Db, Outcome)
    requires op.Update?
  {
    Autocommit(db, op, {})
  }

  /** An update that missed the booking and a later operation can change places. */
  lemma OverwriteCommutes(db: Db, op: Op, update: Op)
    requires update.Update? && update.slotId in db.slots
    requires op.Transactional() || update.slotId in Booked(db)
    ensures var (after, outcome) := Serial(db, op);
            && Serial(Overwrite(db, update).0, op) == (Overwrite(after, update).0, outcome)
            && Overwrite(after, update).1 == Overwrite(db, update).1
  {
    var id := update.slotId;
    SerialIgnoresRow(db, op, id, Revised(db.slots[id], update));
  }

  ghost predicate BookedIn(db: Db, id: Id) {
    Valid(db) && id in db.slots && id in Booked(db)
  }

  /** The booking that takes the slot can change places with an update that missed it. */
  lemma BookingCommutes(db: Db, op: Op, update: Op)
    requires Valid(db) && update.Update? && Racer(op, update.slotId) && CanBook(db, op.meetingId, update.slotId)
    ensures BookedIn(Serial(db, op).0, update.slotId)
    ensures Serial(Serial(db, update).0, op) == (Overwrite(Serial(db, op).0, update).0, Done)
    ensures Serial(db, update).1 == Overwrite(Serial(db, op).0, update).1
  {
    SerialKeepsValid(db, op);
    BookingOutcome(db, op);
    assert Serial(db, op).0.meetings[op.meetingId] == op.meeting;
    assert Serial(db, update) == Overwrite(db, update);
    OverwriteCommutes(db, op, update);
  }

  /** ... and so can anything that comes later. */
  lemma EntryCommutes(db: Db, ops: seq<Op>, entry: Entry, update: Op)
    requires update.Update? && BookedIn(db, update.slotId)
    ensures var (after, outcome) := SerialEntry(db, ops, entry);
            && BookedIn(after, update.slotId)
            && SerialEntry(Overwrite(db, update).0, ops, entry) == (Overwrite(after, update).0, outcome)
            && Overwrite(after, update).1 == Overwrite(db, update).1
  {
    if entry.fault == Nil && entry.call < |ops| {
      var op := ops[entry.call];
      BookedStays(db, op, update.slotId);
      OverwriteCommutes(db, op, update);
    }
  }

  // ---- Putting the update before the booking ----

  /** Entry j is the booking that took the slot. */
  predicate BooksAt(db: Db, ops: seq<Op>, history: seq<Entry>, j: nat, slotId: Id) {
    && j < |history| && history[j].call < |ops| && history[j].fault == Nil
    && Racer(ops[history[j].call], slotId)
    && CanBook(SerialDb(db, ops, history[..j]), ops[history[j].call].meetingId, slotId)
  }

  function Inserted(history: seq<Entry>, j: nat, t: nat): seq<Entry>
    requires j <= |history|
  {
    history[..j] + [Entry(t, Nil)] + history[j..]
  }

  lemma {:induction false} SerialDbValid(db: Db, ops: seq<Op>, history: seq<Entry>)
    requires Valid(db)
    ensures Valid(SerialDb(db, ops, history))
  {
    if history != [] {
      var front, entry := history[..|history| - 1], history[|history| - 1];
      SerialDbValid(db, ops, front);
      if entry.fault == Nil && entry.call < |ops| { SerialKeepsValid(SerialDb(db, ops, front), ops[entry.call]); }
    }
  }

  /** The update put before the booking has the same effect as overwriting the row at the end. */
  ghost predicate GoesUnder(db: Db, ops: seq<Op>, history: seq<Entry>, j: nat, t: nat)
    requires j <= |history| && t < |ops| && ops[t].Update?
  {
    && BookedIn(SerialDb(db, ops, history), ops[t].slotId)
    && SerialDb(db, ops, Inserted(history, j, t)) == Overwrite(SerialDb(db, ops, history), ops[t]).0
  }

  lemma UpdateGoesUnder(db: Db, ops: seq<Op>, history: seq<Entry>, j: nat, t: nat)
    requires Valid(db) && t < |ops| && ops[t].Update? && BooksAt(db, ops, history, j, ops[t].slotId)
    ensures GoesUnder(db, ops, history, j, t)
  {
    BooksAtPart(db, ops, history, j, ops[t].slotId, j + 1);
    UpdateGoesFirst(db, ops, history[..j + 1], t);
    UpdateStaysUnder(db, ops, history, j + 1, j, t);
  }

  lemma UpdateGoesFirst(db: Db, ops: seq<Op>, history: seq<Entry>, t: nat)
    requires Valid(db) && t < |ops| && ops[t].Update? && history != []
    requires BooksAt(db, ops, history, |history| - 1, ops[t].slotId)
    ensures GoesUnder(db, ops, history, |history| - 1, t)
  {
    var n := |history| - 1;
    SerialDbValid(db, ops, history[..n]);
    BookingCommutes(SerialDb(db, ops, history[..n]), ops[history[n].call], ops[t]);
    InsertedAtEnd(db, ops, history, t);
  }

  lemma {:induction false} UpdateStaysUnder(db: Db, ops: seq<Op>, history: seq<Entry>, k: nat, j: nat, t: nat)
    requires j < k <= |history| && t < |ops| && ops[t].Update? && GoesUnder(db, ops, history[..k], j, t)
    ensures GoesUnder(db, ops, history, j, t)
    decreases |history| - k
  {
    if k == |history| {
      assert history[..k] == history;
    } else {
      assert history[..|history| - 1][..k] == history[..k];
      UpdateStaysUnder(db, ops, history[..|history| - 1], k, j, t);
      UpdateGoesFurther(db, ops, history, j, t);
    }
  }

  lemma UpdateGoesFurther(db: Db, ops: seq<Op>, history: seq<Entry>, j: nat, t: nat)
    requires j < |history| - 1 && t < |ops| && ops[t].Update?
    requires GoesUnder(db, ops, history[..|history| - 1], j, t)
    ensures GoesUnder(db, ops, history, j, t)
  {
    var n := |history| - 1;
    EntryCommutes(SerialDb(db, ops, history[..n]), ops, history[n], ops[t]);
    InsertedEarlier(db, ops, history, j, t);
  }

  lemma InsertedAtEnd(db: Db, ops: seq<Op>, history: seq<Entry>, t: nat)
    requires history != [] && t < |ops|
    ensures var n := |history| - 1;
            SerialDb(db, ops, Inserted(history, n, t)) ==
            SerialEntry(Serial(SerialDb(db, ops, history[..n]), ops[t]).0, ops, history[n]).0
  {
    var n := |history| - 1;
    assert Inserted(history, n, t) == history[..n] + [Entry(t, Nil)] + [history[n]];
    SerialDbAppend(db, ops, history[..n], Entry(t, Nil));
    SerialDbAppend(db, ops, history[..n] + [Entry(t, Nil)], history[n]);
  }

  lemma InsertedEarlier(db: Db, ops: seq<Op>, history: seq<Entry>, j: nat, t: nat)
    requires j < |history|
    ensures var n := |history| - 1;
            SerialDb(db, ops, Inserted(history, j, t)) ==
            SerialEntry(SerialDb(db, ops, Inserted(history[..n], j, t)), ops, history[n]).0
  {
    var n := |history| - 1;
    assert Inserted(history, j, t) == Inserted(history[..n], j, t) + [history[n]];
    SerialDbAppend(db, ops, Inserted(history[..n], j, t), history[n]);
  }

  lemma SerialDbAppend(db: Db, ops: seq<Op>, history: seq<Entry>, entry: Entry)
    ensures SerialDb(db, ops, history + [entry]) == SerialEntry(SerialDb(db, ops, history), ops, entry).0
  {
    assert (history + [entry])[..|history|] == history;
  }

  lemma BooksAtPart(db: Db, ops: seq<Op>, history: seq<Entry>, j: nat, slotId: Id, i: nat)
    requires BooksAt(db, ops, history, j, slotId) && j < i <= |history|
    ensures BooksAt(db, ops, history[..i], j, slotId)
  {
    assert history[..i][..j] == history[..j];
  }

  lemma InsertedAt(history: seq<Entry>, j: nat, t: nat, i: nat)
    requires j <= |history| && i <= |history|
    ensures Inserted(history, j, t)[i] == if i < j then history[i] else if i == j then Entry(t, Nil) else history[i - 1]
  {
  }

  /** Where entry i goes when one is put at j. */
  function Shift(j: nat, i: nat): nat {
    if i < j then i else i + 1
  }

  lemma OutcomeAt(db: Db, ops: seq<Op>, history: seq<Entry>, i: nat, earlier: seq<Entry>, entry: Entry)
    requires i < |history| && history[..i] == earlier && history[i] == entry
    ensures SerialOutcome(db, ops, history, i) == SerialEntry(SerialDb(db, ops, earlier), ops, entry).1
  {
  }

  lemma InsertedBefore(db: Db, ops: seq<Op>, history: seq<Entry>, j: nat, t: nat, i: nat)
    requires i < j <= |history|
    ensures SerialOutcome(db, ops, Inserted(history, j, t), i) == SerialOutcome(db, ops, history, i)
  {
    InsertedAt(history, j, t, i);
    assert Inserted(history, j, t)[..i] == history[..i];
    OutcomeAt(db, ops, Inserted(history, j, t), i, history[..i], history[i]);
  }

  /** The update returns what it returned in the run. */
  lemma InsertedItself(db: Db, ops: seq<Op>, history: seq<Entry>, j: nat, t: nat)
    requires Valid(db) && t < |ops| && ops[t].Update? && BooksAt(db, ops, history, j, ops[t].slotId)
    ensures SerialOutcome(db, ops, Inserted(history, j, t), j) == Overwrite(SerialDb(db, ops, history), ops[t]).1
  {
    InsertedAt(history, j, t, j);
    assert Inserted(history, j, t)[..j] == history[..j];
    OutcomeAt(db, ops, Inserted(history, j, t), j, history[..j], Entry(t, Nil));
    SerialDbValid(db, ops, history[..j]);
    BookingCommutes(SerialDb(db, ops, history[..j]), ops[history[j].call], ops[t]);
    UpdateGoesUnder(db, ops, history, j, t);
  }

  /** ... and so does the booking, */
  lemma InsertedBooking(db: Db, ops: seq<Op>, history: seq<Entry>, j: nat, t: nat)
    requires Valid(db) && t < |ops| && ops[t].Update? && BooksAt(db, ops, history, j, ops[t].slotId)
    ensures SerialOutcome(db, ops, Inserted(history, j, t), j + 1) == SerialOutcome(db, ops, history, j)
  {
    var earlier := history[..j] + [Entry(t, Nil)];
    InsertedAt(history, j, t, j + 1);
    assert Inserted(history, j, t)[..j + 1] == earlier;
    OutcomeAt(db, ops, Inserted(history, j, t), j + 1, earlier, history[j]);
    SerialDbAppend(db, ops, history[..j], Entry(t, Nil));
    SerialDbValid(db, ops, history[..j]);
    BookingCommutes(SerialDb(db, ops, history[..j]), ops[history[j].call], ops[t]);
  }

  /** ... and every later call. */
  lemma InsertedLater(db: Db, ops: seq<Op>, history: seq<Entry>, j: nat, t: nat, i: nat)
    requires Valid(db) && t < |ops| && ops[t].Update? && BooksAt(db, ops, history, j, ops[t].slotId)
    requires j < i < |history|
    ensures SerialOutcome(db, ops, Inserted(history, j, t), i + 1) == SerialOutcome(db, ops, history, i)
  {
    InsertedPart(history, j, t, i);
    OutcomeAt(db, ops, Inserted(history, j, t), i + 1, Inserted(history[..i], j, t), history[i]);
    OutcomeAt(db, ops, history, i, history[..i], history[i]);
    BooksAtPart(db, ops, history, j, ops[t].slotId, i);
    EntryOutcome(db, ops, history[..i], j, t, history[i]);
  }

  lemma InsertedPart(history: seq<Entry>, j: nat, t: nat, i: nat)
    requires j < i < |history|
    ensures Inserted(history, j, t)[..i + 1] == Inserted(history[..i], j, t)
    ensures Inserted(history, j, t)[i + 1] == history[i]
  {
  }

  lemma EntryOutcome(db: Db, ops: seq<Op>, part: seq<Entry>, j: nat, t: nat, entry: Entry)
    requires Valid(db) && t < |ops| && ops[t].Update? && BooksAt(db, ops, part, j, ops[t].slotId)
    ensures SerialEntry(SerialDb(db, ops, Inserted(part, j, t)), ops, entry).1
         == SerialEntry(SerialDb(db, ops, part), ops, entry).1
  {
    UpdateGoesUnder(db, ops, part, j, t);
    EntryCommutes(SerialDb(db, ops, part), ops, entry, ops[t]);
  }

  lemma ListsInserted(before: State, s: State, history: seq<Entry>, j: nat, t: nat)
    requires ListsEnded(before, history) && j <= |history| && t < |before.calls| && before.calls[t].Active?
    requires |s.calls| == |before.calls| && s.calls[t].Ended?
    requires forall u :: 0 <= u < |s.calls| && u != t ==> s.calls[u] == before.calls[u]
    ensures ListsEnded(s, Inserted(history, j, t))
  {
    var longer := Inserted(history, j, t);
    forall i | 0 <= i < |longer| ensures longer[i].call < |s.calls| && s.calls[longer[i].call].Ended? {
      InsertedAt(history, j, t, i);
    }
    forall i, k | 0 <= i < k < |longer| ensures longer[i].call != longer[k].call {
      InsertedAt(history, j, t, i);
      InsertedAt(history, j, t, k);
    }
    forall u | 0 <= u < |s.calls| && s.calls[u].Ended? ensures exists i :: 0 <= i < |longer| && longer[i].call == u {
      if u == t {
        InsertedAt(history, j, t, j);
      } else {
        var i :| 0 <= i < |history| && history[i].call == u;
        InsertedAt(history, j, t, if i < j then i else i + 1);
      }
    }
  }

  lemma OthersAnswerAlike(db: Db, ops: seq<Op>, history: seq<Entry>, j: nat, t: nat, i: nat)
    requires Valid(db) && t < |ops| && ops[t].Update? && BooksAt(db, ops, history, j, ops[t].slotId) && i < |history|
    ensures var longer, k := Inserted(history, j, t), Shift(j, i);
            longer[k] == history[i] && SerialOutcome(db, ops, longer, k) == SerialOutcome(db, ops, history, i)
  {
    InsertedAt(history, j, t, Shift(j, i));
    if i < j {
      InsertedBefore(db, ops, history, j, t, i);
    } else if i == j {
      InsertedBooking(db, ops, history, j, t);
    } else {
      InsertedLater(db, ops, history, j, t, i);
    }
  }

  lemma OtherAnswer(db: Db, ops: seq<Op>, history: seq<Entry>, before: State, s: State, j: nat, t: nat, i: nat)
    requires Valid(db) && t < |ops| && ops[t].Update? && BooksAt(db, ops, history, j, ops[t].slotId)
    requires i < |history| && AnswersAt(db, ops, history, before, i)
    requires |s.calls| == |before.calls| && s.calls[history[i].call] == before.calls[history[i].call]
    ensures AnswersAt(db, ops, Inserted(history, j, t), s, Shift(j, i))
  {
    OthersAnswerAlike(db, ops, history, j, t, i);
  }

  lemma OwnAnswer(db: Db, ops: seq<Op>, history: seq<Entry>, s: State, j: nat, t: nat)
    requires Valid(db) && t < |ops| && ops[t].Update? && BooksAt(db, ops, history, j, ops[t].slotId)
    requires t < |s.calls| && s.calls[t] == Ended(Overwrite(SerialDb(db, ops, history), ops[t]).1)
    ensures AnswersAt(db, ops, Inserted(history, j, t), s, j)
  {
    InsertedAt(history, j, t, j);
    InsertedItself(db, ops, history, j, t);
  }

  lemma ExplainsInserted(db: Db, ops: seq<Op>, history: seq<Entry>, before: State, s: State, j: nat, t: nat)
    requires Valid(db) && Explains(db, ops, history, before) && t < |before.calls| && before.calls[t].Active?
    requires t < |ops| && ops[t].Update? && BooksAt(db, ops, history, j, ops[t].slotId)
    requires s == State(Overwrite(before.db, ops[t]).0, before.calls[t := Ended(Overwrite(before.db, ops[t]).1)])
    ensures Explains(db, ops, Inserted(history, j, t), s)
  {
    ListsInserted(before, s, history, j, t);
    UpdateGoesUnder(db, ops, history, j, t);
    OwnAnswer(db, ops, history, s, j, t);
    forall i: nat | i < |history| ensures AnswersAt(db, ops, Inserted(history, j, t), s, Shift(j, i)) {
      assert AnswersAt(db, ops, history, before, i);
      OtherAnswer(db, ops, history, before, s, j, t, i);
    }
    AllAnswers(db, ops, Inserted(history, j, t), s, j);
  }

  lemma AllAnswers(db: Db, ops: seq<Op>, longer: seq<Entry>, s: State, j: nat)
    requires j < |longer| && AnswersAt(db, ops, longer, s, j)
    requires forall i: nat {:trigger Shift(j, i)} :: i < |longer| - 1 ==> AnswersAt(db, ops, longer, s, Shift(j, i))
    ensures AnswersSerially(db, ops, longer, s)
  {
    forall i: nat | i < |longer| ensures AnswersAt(db, ops, longer, s, i) {
      if i != j {
        var k: nat := if i < j then i else i - 1;
        assert Shift(j, k) == i;
      }
    }
  }
}
