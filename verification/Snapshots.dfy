/** Guards that read a snapshot taken during the run, as those of Read Committed do. */
module Snapshots {
  import opened Schema
  import opened Transactions
  import opened Protocol
  import opened Serializability
  import opened Progress
  import opened Guarantees
  import opened Contention

  /** What the guard has read about its own slot was so at some time between the start `db` and
      this step: it knows the bookings from before the run, and it has not made any up. */
  predicate HonestStep(ops: seq<Op>, db: Db, s: State, e: Event) {
    GuardMatters(ops, s, e) ==>
      && (ops[e.call].slotId in Booked(db) ==> ops[e.call].slotId in e.seen)
      && (ops[e.call].slotId in e.seen ==> ops[e.call].slotId in Booked(s.db))
  }

  predicate Honest(ops: seq<Op>, start: State, run: seq<Event>) {
    run == [] ||
    var last := |run| - 1;
    Honest(ops, start, run[..last]) && HonestStep(ops, start.db, After(ops, start, run[..last]), run[last])
  }

  /** Whether the slot was booked after the first k events. */
  predicate BookedAfterEvents(ops: seq<Op>, start: State, run: seq<Event>, k: nat, slotId: Id)
    requires k <= |run|
  {
    slotId in Booked(After(ops, start, run[..k]).db)
  }

  /** The guard of step i, if it has one on an existing slot, reads a snapshot: it agrees about that
      slot with the tables as they were at some point of the run so far, but not before the first
      `since` events. */
  ghost predicate ReadsSince(ops: seq<Op>, start: State, run: seq<Event>, i: nat, since: nat)
    requires i < |run|
  {
    GuardMatters(ops, After(ops, start, run[..i]), run[i]) ==>
      var slotId := ops[run[i].call].slotId;
      exists k: nat :: since <= k <= i && (slotId in run[i].seen <==> BookedAfterEvents(ops, start, run, k, slotId))
  }

  ghost predicate ReadsSnapshot(ops: seq<Op>, start: State, run: seq<Event>, i: nat)
    requires i < |run|
  {
    ReadsSince(ops, start, run, i, 0)
  }

  lemma AbsentStays(ops: seq<Op>, s: State, e: Event, slotId: Id)
    requires Inv(ops, s) && Enabled(ops, s, e) && Settled(ops, s, slotId) && slotId !in s.db.slots
    ensures slotId !in Next(ops, s, e).db.slots
  {
    assert CallOk(s.db, ops[e.call], s.calls[e.call]);
    if e.Commit? && ops[e.call].CreateAvailability? {
      CommittedOffer(s.db, ops[e.call], s.calls[e.call]);
      RowMapKeys(Offered(ops[e.call]));
    } else if e.Commit? {
      CommittedBooking(s.db, ops[e.call], s.calls[e.call]);
    }
  }

  lemma {:induction false} SettledStays(ops: seq<Op>, db: Db, run: seq<Event>, k: nat, slotId: Id)
    requires Valid(db) && FreshIds(db, ops) && Legal(ops, Initial(db, ops), run) && k <= |run|
    requires Settled(ops, After(ops, Initial(db, ops), run[..k]), slotId)
    ensures Settled(ops, After(ops, Initial(db, ops), run), slotId)
    ensures slotId in After(ops, Initial(db, ops), run).db.slots ==>
            slotId in After(ops, Initial(db, ops), run[..k]).db.slots
    decreases |run| - k
  {
    if k == |run| {
      assert run[..k] == run;
    } else {
      var front, e := run[..|run| - 1], run[|run| - 1];
      var before := After(ops, Initial(db, ops), front);
      assert front[..k] == run[..k];
      SettledStays(ops, db, front, k, slotId);
      ReachableInv(ops, db, front);
      StepKeepsSettled(ops, before, e, slotId);
      if slotId !in before.db.slots { AbsentStays(ops, before, e, slotId); }
    }
  }

  /** Once booked, a slot stays booked for as long as it is there. */
  lemma BookedSince(ops: seq<Op>, db: Db, run: seq<Event>, k: nat, slotId: Id)
    requires Valid(db) && FreshIds(db, ops) && Legal(ops, Initial(db, ops), run) && k <= |run|
    requires slotId in After(ops, Initial(db, ops), run).db.slots
    requires slotId in Booked(db) || slotId in Booked(After(ops, Initial(db, ops), run[..k]).db)
    ensures slotId in Booked(After(ops, Initial(db, ops), run[..k]).db)
    ensures slotId in Booked(After(ops, Initial(db, ops), run).db)
  {
    var start := Initial(db, ops);
    PrefixOfRun(ops, start, run, k);
    ReachableInv(ops, db, run[..k]);
    if slotId in Booked(db) {
      InitialInv(db, ops);
      BookedSlotIsSettled(ops, start, slotId);
      assert run[..k][..0] == [];
      SettledStays(ops, db, run[..k], 0, slotId);
    } else {
      BookedSlotIsSettled(ops, After(ops, start, run[..k]), slotId);
    }
    SettledStays(ops, db, run, k, slotId);
  }

  lemma SnapshotStepIsHonest(ops: seq<Op>, db: Db, run: seq<Event>, i: nat)
    requires Valid(db) && FreshIds(db, ops) && Legal(ops, Initial(db, ops), run)
    requires i < |run| && ReadsSnapshot(ops, Initial(db, ops), run, i)
    ensures HonestStep(ops, db, After(ops, Initial(db, ops), run[..i]), run[i])
  {
    var start, e := Initial(db, ops), run[i];
    var s := After(ops, start, run[..i]);
    PrefixOfRun(ops, start, run, i);
    if GuardMatters(ops, s, e) {
      var slotId := ops[e.call].slotId;
      var k: nat :| k <= i && (slotId in e.seen <==> BookedAfterEvents(ops, start, run, k, slotId));
      assert run[..i][..k] == run[..k];
      if slotId in Booked(db) || slotId in e.seen { BookedSince(ops, db, run[..i], k, slotId); }
    }
  }

  /** An honest guard agrees with the tables at the start or with those of its step. */
  lemma HonestStepReadsSnapshot(ops: seq<Op>, db: Db, run: seq<Event>, i: nat)
    requires i < |run| && HonestStep(ops, db, After(ops, Initial(db, ops), run[..i]), run[i])
    ensures ReadsSnapshot(ops, Initial(db, ops), run, i)
  {
    var start, e := Initial(db, ops), run[i];
    if GuardMatters(ops, After(ops, start, run[..i]), e) {
      var slotId := ops[e.call].slotId;
      var k: nat := if slotId in e.seen then i else 0;
      assert run[..0] == [];
      assert slotId in e.seen <==> BookedAfterEvents(ops, start, run, k, slotId);
    }
  }

  predicate HonestAt(ops: seq<Op>, start: State, run: seq<Event>, i: nat)
    requires i < |run|
  {
    HonestStep(ops, start.db, After(ops, start, run[..i]), run[i])
  }

  /** Honest step by step. */
  lemma {:induction false} HonestEverywhere(ops: seq<Op>, start: State, run: seq<Event>)
    ensures Honest(ops, start, run) <==> forall i: nat :: i < |run| ==> HonestAt(ops, start, run, i)
  {
    if run != [] {
      var n := |run| - 1;
      HonestEverywhere(ops, start, run[..n]);
      forall i: nat | i < n ensures HonestAt(ops, start, run[..n], i) <==> HonestAt(ops, start, run, i) {
        assert run[..n][..i] == run[..i] && run[..n][i] == run[i];
      }
      if forall i: nat :: i < |run| ==> HonestAt(ops, start, run, i) {
        assert HonestAt(ops, start, run, n);
      }
      if Honest(ops, start, run) {
        forall i: nat | i < |run| ensures HonestAt(ops, start, run, i) {
          if i < n { assert HonestAt(ops, start, run[..n], i); }
        }
      }
    }
  }

  /** Honest guards are exactly those that read snapshots. */
  lemma SnapshotsAreHonest(ops: seq<Op>, db: Db, run: seq<Event>)
    requires Valid(db) && FreshIds(db, ops) && Legal(ops, Initial(db, ops), run)
    ensures Honest(ops, Initial(db, ops), run) <==>
            forall i: nat :: i < |run| ==> ReadsSnapshot(ops, Initial(db, ops), run, i)
  {
    var start := Initial(db, ops);
    HonestEverywhere(ops, start, run);
    forall i: nat | i < |run| ensures HonestAt(ops, start, run, i) <==> ReadsSnapshot(ops, start, run, i) {
      if ReadsSnapshot(ops, start, run, i) { SnapshotStepIsHonest(ops, db, run, i); }
      if HonestAt(ops, start, run, i) { HonestStepReadsSnapshot(ops, db, run, i); }
    }
  }

  /** Truthful guards are honest: they read the latest snapshot. */
  lemma TruthIsHonest(ops: seq<Op>, db: Db, run: seq<Event>)
    requires Valid(db) && FreshIds(db, ops)
    requires Legal(ops, Initial(db, ops), run) && Atomic(ops, Initial(db, ops), run)
    ensures Honest(ops, Initial(db, ops), run)
  {
    forall i: nat | i < |run| ensures ReadsSnapshot(ops, Initial(db, ops), run, i) {
      GuardIsTruthful(ops, Initial(db, ops), run, i);
      assert forall slotId :: BookedAfterEvents(ops, Initial(db, ops), run, i, slotId) <==>
                              slotId in Booked(After(ops, Initial(db, ops), run[..i]).db);
    }
    SnapshotsAreHonest(ops, db, run);
  }

  // ---- Bookings from before the run ----

  /** Slots booked at the start are there, unchanged. */
  predicate KeepsOldBookings(db: Db, now: Db) {
    forall id :: id in db.slots && id in Booked(db) ==>
      id in now.slots && now.slots[id] == db.slots[id] && id in Booked(now)
  }

  lemma HonestStepKeepsOldBookings(ops: seq<Op>, db: Db, s: State, e: Event)
    requires Inv(ops, s) && Enabled(ops, s, e) && HonestStep(ops, db, s, e) && KeepsOldBookings(db, s.db)
    ensures KeepsOldBookings(db, Next(ops, s, e).db)
  {
    forall id | id in db.slots && id in Booked(db)
      ensures var now := Next(ops, s, e).db; id in now.slots && now.slots[id] == db.slots[id] && id in Booked(now)
    {
      HonestStepKeepsOldBooking(ops, db, s, e, id);
    }
  }

  lemma HonestStepKeepsOldBooking(ops: seq<Op>, db: Db, s: State, e: Event, id: Id)
    requires Inv(ops, s) && Enabled(ops, s, e) && HonestStep(ops, db, s, e)
    requires id in Booked(db) && id in s.db.slots && id in Booked(s.db)
    ensures var now := Next(ops, s, e).db; id in now.slots && now.slots[id] == s.db.slots[id] && id in Booked(now)
  {
    var op, call := ops[e.call], s.calls[e.call];
    assert CallOk(s.db, op, call);
    if e.Commit? && op.BookMeeting? {
      CommittedBooking(s.db, op, call);
    } else if e.Commit? {
      CommittedOffer(s.db, op, call);
      RowMapKeys(Offered(op));
    } else if e.Statement? && op.Delete? {
      CascadeKeepsValid(s.db, op.slotId);
    }
  }

  /** Honest guards leave the bookings from before the run alone. */
  lemma {:induction false} OldBookingsStay(ops: seq<Op>, db: Db, run: seq<Event>)
    requires Valid(db) && FreshIds(db, ops) && Legal(ops, Initial(db, ops), run) && Honest(ops, Initial(db, ops), run)
    ensures KeepsOldBookings(db, After(ops, Initial(db, ops), run).db)
  {
    if run != [] {
      var front := run[..|run| - 1];
      OldBookingsStay(ops, db, front);
      ReachableInv(ops, db, front);
      HonestStepKeepsOldBookings(ops, db, After(ops, Initial(db, ops), front), run[|run| - 1]);
    }
  }
}
