/** For which calls a booking can come undone, and for which a run can be one that no serial order
    explains, judged by their arguments alone. */
module Freezing {
  import opened Schema
  import opened Transactions
  import opened Protocol
  import opened Serializability
  import opened Progress
  import opened Provenance
  import opened Reachability
  import opened Guarantees
  import opened Snapshots
  import opened Requests
  import opened SomeOrder

  /** The call deletes the slot, or would change this row of it. */
  predicate Threatens(op: Op, id: Id, row: Slot) {
    || (op.Delete? && op.slotId == id)
    || (op.Update? && op.slotId == id && Checks(Revised(row, op)) && Revised(row, op) != row)
  }

  /** The slot can be there with a row that one call wants to book and another to change. */
  ghost predicate Endangered(db: Db, ops: seq<Op>, id: Id) {
    && id !in Booked(db)
    && (exists t :: 0 <= t < |ops| && Racer(ops[t], id))
    && exists row, t: nat :: MayHold(db, ops, id, row) && t < |ops| && Threatens(ops[t], id, row)
  }

  /** In no run with guards that read snapshots does a booking come undone. */
  ghost predicate BookingsAreSafe(db: Db, ops: seq<Op>) {
    forall run, s :: HonestlyReachedBy(ops, db, run, s) ==> FrozenThroughout(ops, Initial(db, ops), run)
  }

  lemma HonestStepOfRun(ops: seq<Op>, db: Db, run: seq<Event>, i: nat)
    requires i < |run| && Legal(ops, Initial(db, ops), run) && Honest(ops, Initial(db, ops), run)
    ensures HonestlyReachedBy(ops, db, run[..i], After(ops, Initial(db, ops), run[..i]))
    ensures HonestStep(ops, db, After(ops, Initial(db, ops), run[..i]), run[i])
  {
    var start, part := Initial(db, ops), run[..i];
    PrefixOfRun(ops, start, run, i);
    HonestEverywhere(ops, start, run);
    HonestEverywhere(ops, start, part);
    assert HonestAt(ops, start, run, i);
    forall k: nat | k < i ensures HonestAt(ops, start, part, k) {
      assert part[..k] == run[..k] && part[k] == run[k];
      assert HonestAt(ops, start, run, k);
    }
  }

  lemma OverriddenSlotIsEndangered(ops: seq<Op>, db: Db, run: seq<Event>, s: State, e: Event)
    requires Valid(db) && FreshIds(db, ops) && HonestlyReachedBy(ops, db, run, s)
    requires HonestStep(ops, db, s, e) && Overrides(ops, s, e)
    ensures Endangered(db, ops, ops[e.call].slotId)
  {
    var id := ops[e.call].slotId;
    RowsAreAccounted(ops, db, run);
    ReachedSlotIsRequested(ops, db, run, s, id);
    var t := BookedMeansWon(ops, db, s, id);
    assert Threatens(ops[e.call], id, s.db.slots[id]);
  }

  lemma SafeWithoutDanger(ops: seq<Op>, db: Db, run: seq<Event>)
    requires Valid(db) && FreshIds(db, ops) && Legal(ops, Initial(db, ops), run) && Honest(ops, Initial(db, ops), run)
    requires forall id :: !Endangered(db, ops, id)
    ensures FrozenThroughout(ops, Initial(db, ops), run)
  {
    forall i | 0 <= i < |run| ensures !Overrides(ops, After(ops, Initial(db, ops), run[..i]), run[i]) {
      var s := After(ops, Initial(db, ops), run[..i]);
      HonestStepOfRun(ops, db, run, i);
      if Overrides(ops, s, run[i]) { OverriddenSlotIsEndangered(ops, db, run[..i], s, run[i]); }
    }
    BookedIsFrozen(ops, db, run);
  }

  /** The booking and the threat can both be about to happen to the row. */
  lemma ThreatenedSlotIsBooked(ops: seq<Op>, db: Db, id: Id, row: Slot, p: nat, t: nat)
    returns (run: seq<Event>, s: State)
    requires Valid(db) && FreshIds(db, ops) && FreshMeetings(db, ops) && id !in Booked(db)
    requires p < |ops| && Racer(ops[p], id) && t < |ops| && Threatens(ops[t], id, row) && MayHold(db, ops, id, row)
    ensures LeadsTo(ops, db, run, s) && Quiet(s) && |s.calls| == |ops| && Waiting(s, t)
    ensures id in s.db.slots && s.db.slots[id] == row && id in Booked(s.db)
  {
    var was: Slot;
    run, s, was := RequestedSlotHappens(ops, db, id, row);
    assert Waiting(s, p) && Waiting(s, t);
    assert Booked(s.db) == Booked(db);
    run, s := BookingHappens(ops, db, run, s, p);
  }

  lemma DangerousOverride(ops: seq<Op>, db: Db, id: Id, row: Slot, p: nat, t: nat) returns (run: seq<Event>)
    requires Valid(db) && FreshIds(db, ops) && FreshMeetings(db, ops) && id !in Booked(db)
    requires p < |ops| && Racer(ops[p], id) && t < |ops| && Threatens(ops[t], id, row) && MayHold(db, ops, id, row)
    ensures Legal(ops, Initial(db, ops), run) && Honest(ops, Initial(db, ops), run)
    ensures !FrozenThroughout(ops, Initial(db, ops), run)
    ensures ops[t].Delete? ==> !KeepsBooked(ops, Initial(db, ops), run)
  {
    var start, e := Initial(db, ops), Statement(t, {});
    var front, s := ThreatenedSlotIsBooked(ops, db, id, row, p, t);
    TruthIsHonest(ops, db, front);
    ReachableInv(ops, db, front);
    OnwardIsEnabled(ops, s, t);
    run := front + [e];
    AppendEvent(ops, start, front, e);
    assert run[..|front|] == front && run[|front|] == e;
    BookedIsFrozen(ops, db, run);
  }

  /** No run with guards that read snapshots undoes a booking if and only if no slot can be wanted
      by a booking and threatened by another call, which the arguments of the calls tell. */
  lemma BookingsAreSafeExactly(ops: seq<Op>, db: Db)
    requires Valid(db) && FreshIds(db, ops) && FreshMeetings(db, ops)
    ensures BookingsAreSafe(db, ops) <==> forall id :: !Endangered(db, ops, id)
  {
    if forall id :: !Endangered(db, ops, id) {
      forall run, s | HonestlyReachedBy(ops, db, run, s) ensures FrozenThroughout(ops, Initial(db, ops), run) {
        SafeWithoutDanger(ops, db, run);
      }
    } else {
      var id :| Endangered(db, ops, id);
      DangerIsReal(ops, db, id);
    }
  }

  lemma DangerIsReal(ops: seq<Op>, db: Db, id: Id)
    requires Valid(db) && FreshIds(db, ops) && FreshMeetings(db, ops) && Endangered(db, ops, id)
    ensures !BookingsAreSafe(db, ops)
  {
    var p :| 0 <= p < |ops| && Racer(ops[p], id);
    var row, t: nat :| MayHold(db, ops, id, row) && t < |ops| && Threatens(ops[t], id, row);
    var run := DangerousOverride(ops, db, id, row, p, t);
    assert HonestlyReachedBy(ops, db, run, After(ops, Initial(db, ops), run));
  }

  // ---- Serializability ----

  /** The slot can be there, and one call wants to book it and another to delete it. */
  ghost predicate MayBeLost(db: Db, ops: seq<Op>, id: Id) {
    && id !in Booked(db)
    && (exists t :: 0 <= t < |ops| && Racer(ops[t], id))
    && (exists t :: 0 <= t < |ops| && Removes(ops[t], id))
    && exists row :: MayHold(db, ops, id, row)
  }

  predicate Removes(op: Op, id: Id) {
    op.Delete? && op.slotId == id
  }

  /** Every run with guards that read snapshots is explained by some serial history. */
  ghost predicate AlwaysSerializable(db: Db, ops: seq<Op>) {
    forall run, s :: HonestlyReachedBy(ops, db, run, s) ==> SomeOrderExplains(ops, db, run)
  }

  lemma {:induction false} LostSlot(ops: seq<Op>, db: Db, run: seq<Event>) returns (id: Id)
    requires Valid(db) && FreshIds(db, ops) && Legal(ops, Initial(db, ops), run) && Honest(ops, Initial(db, ops), run)
    requires !KeepsBooked(ops, Initial(db, ops), run)
    ensures MayBeLost(db, ops, id)
  {
    var front, e := run[..|run| - 1], run[|run| - 1];
    var before := After(ops, Initial(db, ops), front);
    if !KeepsBooked(ops, Initial(db, ops), front) {
      id := LostSlot(ops, db, front);
    } else {
      id := ops[e.call].slotId;
      RowsAreAccounted(ops, db, front);
      ReachedSlotIsRequested(ops, db, front, before, id);
      var t := BookedMeansWon(ops, db, before, id);
      assert Removes(ops[e.call], id);
    }
  }

  lemma LossIsReal(ops: seq<Op>, db: Db, id: Id)
    requires Valid(db) && FreshIds(db, ops) && FreshMeetings(db, ops) && MayBeLost(db, ops, id)
    ensures !AlwaysSerializable(db, ops)
  {
    var p :| 0 <= p < |ops| && Racer(ops[p], id);
    var t :| 0 <= t < |ops| && Removes(ops[t], id);
    var row :| MayHold(db, ops, id, row);
    var run := DangerousOverride(ops, db, id, row, p, t);
    SerializableInSomeOrder(ops, db, run);
    assert HonestlyReachedBy(ops, db, run, After(ops, Initial(db, ops), run));
  }

  /** All runs with guards that read snapshots are serializable if and only if no slot that can be
      there is wanted both by a booking and by a delete. */
  lemma AlwaysSerializableExactly(ops: seq<Op>, db: Db)
    requires Valid(db) && FreshIds(db, ops) && FreshMeetings(db, ops)
    ensures AlwaysSerializable(db, ops) <==> forall id :: !MayBeLost(db, ops, id)
  {
    if forall id :: !MayBeLost(db, ops, id) {
      forall run, s | HonestlyReachedBy(ops, db, run, s) ensures SomeOrderExplains(ops, db, run) {
        if !KeepsBooked(ops, Initial(db, ops), run) {
          var id := LostSlot(ops, db, run);
          assert false;
        }
        SerializableInSomeOrder(ops, db, run);
      }
    } else {
      var id :| MayBeLost(db, ops, id);
      LossIsReal(ops, db, id);
    }
  }
}
