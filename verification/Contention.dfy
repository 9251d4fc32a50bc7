/** Bookings and deletes competing for one slot under truthful guards: one of them gets it. */
module Contention {
  import opened GoErrors
  import opened Schema
  import opened Transactions
  import opened Protocol
  import opened Serializability
  import opened Provenance
  import opened Guarantees

  /** The call wants the slot for itself: to book it, or to delete it. */
  predicate Rival(op: Op, slotId: Id) {
    Racer(op, slotId) || (op.Delete? && op.slotId == slotId)
  }

  /** It got it. */
  predicate Takes(ops: seq<Op>, s: State, slotId: Id, t: nat) {
    t < |ops| && Rival(ops[t], slotId) && Succeeded(s, t, if ops[t].Delete? then Rows(1) else Done)
  }

  lemma BookedSlotIsSettled(ops: seq<Op>, s: State, slotId: Id)
    requires Inv(ops, s) && slotId in Booked(s.db)
    ensures Settled(ops, s, slotId)
  {
    PresentSlotIsNotPending(ops, s, slotId);
  }

  /** An offer still under way does not bring a slot that is there already. */
  lemma PresentSlotIsNotPending(ops: seq<Op>, s: State, slotId: Id)
    requires Inv(ops, s) && slotId in s.db.slots
    ensures forall t :: 0 <= t < |ops| && HandsOut(ops[t], slotId) ==> s.calls[t].Ended?
  {
    forall t | 0 <= t < |ops| && HandsOut(ops[t], slotId) ensures s.calls[t].Ended? {
      assert CallOk(s.db, ops[t], s.calls[t]);
    }
  }

  /** A slot can only be taken while it is there and not settled, and then it is settled. */
  lemma TakingSettles(ops: seq<Op>, s: State, e: Event, slotId: Id, t: nat)
    requires Inv(ops, s) && Enabled(ops, s, e) && GuardsTruth(ops, s, e)
    requires Takes(ops, Next(ops, s, e), slotId, t) && !Takes(ops, s, slotId, t)
    ensures t == e.call && !Settled(ops, s, slotId) && Settled(ops, Next(ops, s, e), slotId)
  {
    NextTouchesOneCall(ops, s, e);
    if ops[t].Delete? {
      PresentSlotIsNotPending(ops, s, slotId);
    } else {
      NewWinnerCommits(ops, s, e, slotId, t);
      WinningSettles(ops, s, t, slotId);
    }
  }

  lemma {:induction false} TakenIsSettled(ops: seq<Op>, db: Db, run: seq<Event>, slotId: Id, t: nat)
    requires Valid(db) && FreshIds(db, ops)
    requires Legal(ops, Initial(db, ops), run) && Atomic(ops, Initial(db, ops), run)
    requires Takes(ops, After(ops, Initial(db, ops), run), slotId, t)
    ensures Settled(ops, After(ops, Initial(db, ops), run), slotId)
  {
    var front, e := run[..|run| - 1], run[|run| - 1];
    var before := After(ops, Initial(db, ops), front);
    ReachableInv(ops, db, front);
    if Takes(ops, before, slotId, t) {
      TakenIsSettled(ops, db, front, slotId, t);
      StepKeepsSettled(ops, before, e, slotId);
    } else {
      TakingSettles(ops, before, e, slotId, t);
    }
  }

  /** With truthful guards, of all bookings and deletes of a slot at most one succeeds. */
  lemma {:induction false} AtMostOneTakes(ops: seq<Op>, db: Db, run: seq<Event>, slotId: Id, t: nat, u: nat)
    requires Valid(db) && FreshIds(db, ops)
    requires Legal(ops, Initial(db, ops), run) && Atomic(ops, Initial(db, ops), run)
    requires Takes(ops, After(ops, Initial(db, ops), run), slotId, t)
    requires Takes(ops, After(ops, Initial(db, ops), run), slotId, u)
    ensures t == u
  {
    var front, e := run[..|run| - 1], run[|run| - 1];
    var before := After(ops, Initial(db, ops), front);
    ReachableInv(ops, db, front);
    if Takes(ops, before, slotId, t) && Takes(ops, before, slotId, u) {
      AtMostOneTakes(ops, db, front, slotId, t, u);
    } else if Takes(ops, before, slotId, t) {
      TakenIsSettled(ops, db, front, slotId, t);
      TakingSettles(ops, before, e, slotId, u);
    } else if Takes(ops, before, slotId, u) {
      TakenIsSettled(ops, db, front, slotId, u);
      TakingSettles(ops, before, e, slotId, t);
    } else {
      TakingSettles(ops, before, e, slotId, t);
      TakingSettles(ops, before, e, slotId, u);
    }
  }

  /** What a call that comes too late for the slot returns. */
  function Answer(loser: Op, winner: Op): Outcome {
    if loser.Delete? then Rows(0)
    else if winner.Delete? then Failed(Wrapped([ERR_FOREIGN_KEY]))
    else Failed(ERR_SLOT_TAKEN)
  }

  predicate LosesTo(ops: seq<Op>, s: State, slotId: Id, t: nat, u: nat) {
    t < |ops| && u != t && Takes(ops, s, slotId, u) && Succeeded(s, t, Answer(ops[t], ops[u]))
  }

  /** Only a delete that took it removes the slot, and every rival that has ended was made to fail,
      took the slot, or came too late. */
  ghost predicate Contending(ops: seq<Op>, s: State, run: seq<Event>, slotId: Id) {
    && (slotId in s.db.slots || exists t: nat :: Takes(ops, s, slotId, t) && ops[t].Delete?)
    && forall t: nat :: t < |ops| && t < |s.calls| && Rival(ops[t], slotId) && s.calls[t].Ended? ==>
         MadeToFail(run, t) || Takes(ops, s, slotId, t) || exists u: nat :: LosesTo(ops, s, slotId, t, u)
  }

  lemma EndingRivalIsDecided(ops: seq<Op>, db: Db, s: State, run: seq<Event>, e: Event, slotId: Id)
    requires Inv(ops, s) && Enabled(ops, s, e) && GuardsTruth(ops, s, e) && !e.Fail? && Rival(ops[e.call], slotId)
    requires Free(db, ops, slotId) && MeetingsAccounted(db, ops, s) && Contending(ops, s, run, slotId)
    requires Next(ops, s, e).calls[e.call].Ended?
    ensures var s' := Next(ops, s, e);
            Takes(ops, s', slotId, e.call) || exists u: nat :: LosesTo(ops, s', slotId, e.call, u)
  {
    NextTouchesOneCall(ops, s, e);
    EndingRivalOutcome(ops, db, s, e, slotId);
    VerdictDecides(ops, db, s, Next(ops, s, e), run, e.call, slotId);
  }

  lemma VerdictDecides(ops: seq<Op>, db: Db, s: State, s': State, run: seq<Event>, t: nat, slotId: Id)
    requires Valid(s.db) && slotId !in Booked(db) && MeetingsAccounted(db, ops, s) && Contending(ops, s, run, slotId)
    requires t < |ops| && Rival(ops[t], slotId) && t < |s.calls| && s.calls[t].Active?
    requires s'.calls == s.calls[t := Ended(Verdict(s.db, ops[t], slotId))]
    ensures Takes(ops, s', slotId, t) || exists u: nat :: LosesTo(ops, s', slotId, t, u)
  {
    if slotId in Booked(s.db) {
      var u := BookedMeansWon(ops, db, s, slotId);
      assert LosesTo(ops, s', slotId, t, u);
    } else if slotId !in s.db.slots {
      var u: nat :| Takes(ops, s, slotId, u) && ops[u].Delete?;
      assert LosesTo(ops, s', slotId, t, u);
    }
  }

  /** What the slot's state makes of an attempt. */
  function Verdict(db: Db, op: Op, slotId: Id): Outcome {
    if op.Delete? then if slotId in db.slots && slotId !in Booked(db) then Rows(1) else Rows(0)
    else if slotId in Booked(db) then Failed(ERR_SLOT_TAKEN)
    else if slotId in db.slots then Done
    else Failed(Wrapped([ERR_FOREIGN_KEY]))
  }

  lemma EndingRivalOutcome(ops: seq<Op>, db: Db, s: State, e: Event, slotId: Id)
    requires Inv(ops, s) && Enabled(ops, s, e) && GuardsTruth(ops, s, e) && !e.Fail? && Rival(ops[e.call], slotId)
    requires Free(db, ops, slotId) && MeetingsAccounted(db, ops, s) && Next(ops, s, e).calls[e.call].Ended?
    ensures var outcome, op := Next(ops, s, e).calls[e.call].outcome, ops[e.call];
            outcome == Verdict(s.db, op, slotId)
  {
    EndingStepIsSerial(ops, s, e);
    if ops[e.call].BookMeeting? {
      PendingIdIsFree(ops, db, s, slotId, e.call);
      BookingOutcome(s.db, ops[e.call]);
    }
  }

  lemma SlotStaysUnlessTaken(ops: seq<Op>, s: State, e: Event, slotId: Id)
    requires Inv(ops, s) && Enabled(ops, s, e) && slotId in s.db.slots
    ensures var s' := Next(ops, s, e);
            slotId in s'.db.slots || (Takes(ops, s', slotId, e.call) && ops[e.call].Delete?)
  {
    if !(ops[e.call].Delete? && ops[e.call].slotId == slotId) { SlotStaysBooked(ops, s, e, slotId); }
  }

  lemma DecidedStays(ops: seq<Op>, s: State, e: Event, slotId: Id, t: nat)
    requires Enabled(ops, s, e) && t != e.call
    requires Takes(ops, s, slotId, t) || exists u: nat :: LosesTo(ops, s, slotId, t, u)
    ensures var s' := Next(ops, s, e);
            Takes(ops, s', slotId, t) || exists u: nat :: LosesTo(ops, s', slotId, t, u)
  {
    NextTouchesOneCall(ops, s, e);
    if !Takes(ops, s, slotId, t) {
      var u: nat :| LosesTo(ops, s, slotId, t, u);
      assert LosesTo(ops, Next(ops, s, e), slotId, t, u);
    }
  }

  lemma StepKeepsContending(ops: seq<Op>, db: Db, s: State, run: seq<Event>, e: Event, slotId: Id)
    requires Inv(ops, s) && Enabled(ops, s, e) && GuardsTruth(ops, s, e) && Contending(ops, s, run, slotId)
    requires Free(db, ops, slotId) && MeetingsAccounted(db, ops, s)
    ensures Contending(ops, Next(ops, s, e), run + [e], slotId)
  {
    var s' := Next(ops, s, e);
    NextTouchesOneCall(ops, s, e);
    if slotId in s.db.slots {
      SlotStaysUnlessTaken(ops, s, e, slotId);
    } else {
      var t: nat :| Takes(ops, s, slotId, t) && ops[t].Delete?;
      assert Takes(ops, s', slotId, t);
    }
    forall t: nat | t < |ops| && Rival(ops[t], slotId) && s'.calls[t].Ended?
      ensures MadeToFail(run + [e], t) || Takes(ops, s', slotId, t) || exists u: nat :: LosesTo(ops, s', slotId, t, u)
    {
      MadeToFailStays(run, e, t);
      if t == e.call && !e.Fail? {
        EndingRivalIsDecided(ops, db, s, run, e, slotId);
      } else if t != e.call && !MadeToFail(run, t) {
        DecidedStays(ops, s, e, slotId, t);
      }
    }
  }

  lemma {:induction false} ContentionGoesOn(ops: seq<Op>, db: Db, run: seq<Event>, slotId: Id)
    requires Valid(db) && FreshIds(db, ops) && Free(db, ops, slotId)
    requires Legal(ops, Initial(db, ops), run) && Atomic(ops, Initial(db, ops), run)
    ensures Contending(ops, After(ops, Initial(db, ops), run), run, slotId)
  {
    if run != [] {
      var front, e := run[..|run| - 1], run[|run| - 1];
      assert run == front + [e];
      ContentionGoesOn(ops, db, front, slotId);
      ReachableInv(ops, db, front);
      RowsAreAccounted(ops, db, front);
      StepKeepsContending(ops, db, After(ops, Initial(db, ops), front), front, e, slotId);
    }
  }

  /** Bookings and deletes of one free slot: in every complete run with truthful guards in which at
      least one of them was not made to fail, exactly one succeeds, and every other that was not
      made to fail is told so: a delete that no row matched, a booking that the slot is taken or
      that it is gone. */
  lemma ExactlyOneTakes(ops: seq<Op>, db: Db, run: seq<Event>, slotId: Id, survivor: nat) returns (winner: nat)
    requires Valid(db) && FreshIds(db, ops) && Free(db, ops, slotId)
    requires Legal(ops, Initial(db, ops), run) && Atomic(ops, Initial(db, ops), run)
    requires Complete(After(ops, Initial(db, ops), run))
    requires survivor < |ops| && Rival(ops[survivor], slotId) && !MadeToFail(run, survivor)
    ensures winner < |ops| && Rival(ops[winner], slotId)
    ensures var s := After(ops, Initial(db, ops), run);
            && |s.calls| == |ops|
            && (forall t: nat :: t < |ops| && Rival(ops[t], slotId) ==> (Takes(ops, s, slotId, t) <==> t == winner))
            && (forall t: nat :: t < |ops| && Rival(ops[t], slotId) && !MadeToFail(run, t) && t != winner ==>
                  s.calls[t] == Ended(Answer(ops[t], ops[winner])))
  {
    var s := After(ops, Initial(db, ops), run);
    ReachableInv(ops, db, run);
    ContentionGoesOn(ops, db, run, slotId);
    winner := survivor;
    if !Takes(ops, s, slotId, survivor) {
      winner :| LosesTo(ops, s, slotId, survivor, winner);
    }
    forall t: nat | t < |ops| && Rival(ops[t], slotId)
      ensures Takes(ops, s, slotId, t) <==> t == winner
      ensures !MadeToFail(run, t) && t != winner ==> s.calls[t] == Ended(Answer(ops[t], ops[winner]))
    {
      if Takes(ops, s, slotId, t) {
        AtMostOneTakes(ops, db, run, slotId, t, winner);
      } else if !MadeToFail(run, t) {
        var u: nat :| LosesTo(ops, s, slotId, t, u);
        AtMostOneTakes(ops, db, run, slotId, u, winner);
      }
    }
  }
}
