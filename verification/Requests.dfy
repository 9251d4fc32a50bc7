/** What rows the arguments of the calls ask for, before anything has run: no reachable state holds
    anything else, and all of it can happen. */
module Requests {
  import opened Schema
  import opened Slicing
  import opened Transactions
  import opened Protocol
  import opened Serializability
  import opened Provenance
  import opened Reachability
  import opened Guarantees
  import opened Snapshots
  import opened Listing

  /** The run is legal and leads to this state. */
  predicate ReachedBy(ops: seq<Op>, db: Db, run: seq<Event>, s: State) {
    Legal(ops, Initial(db, ops), run) && s == After(ops, Initial(db, ops), run)
  }

  /** ... and its guards have read snapshots. */
  predicate HonestlyReachedBy(ops: seq<Op>, db: Db, run: seq<Event>, s: State) {
    ReachedBy(ops, db, run, s) && Honest(ops, Initial(db, ops), run)
  }

  /** ... and its guards were even truthful. */
  predicate LeadsTo(ops: seq<Op>, db: Db, run: seq<Event>, s: State) {
    ReachedBy(ops, db, run, s) && Atomic(ops, Initial(db, ops), run)
  }

  // ---- What is asked for ----

  /** Row i of offer t can enter the table as slot `id`. */
  predicate Cuttable(ops: seq<Op>, t: nat, i: nat, id: Id) {
    && t < |ops| && i < |Offered(ops[t])| && Offered(ops[t])[i].id == id && Checks(Offered(ops[t])[i].slot)
  }

  predicate Revises(op: Op, id: Id, was: Slot, row: Slot) {
    op.Update? && op.slotId == id && row == Revised(was, op)
  }

  /** The row as it is, or as one of the updates asks for; but a slot that was booked before the
      run stays as it is. */
  predicate Variant(db: Db, ops: seq<Op>, id: Id, was: Slot, row: Slot) {
    row == was || (id !in Booked(db) && exists t :: 0 <= t < |ops| && Revises(ops[t], id, was, row))
  }

  /** The user is there, or one of the calls adds the user. */
  predicate MayExist(db: Db, ops: seq<Op>, userId: Id) {
    userId in db.users || exists t :: 0 <= t < |ops| && ops[t].AddUser? && ops[t].newUserId == userId
  }

  ghost predicate FromOffer(db: Db, ops: seq<Op>, id: Id, row: Slot) {
    && MayExist(db, ops, row.userId)
    && exists t: nat, i: nat :: Cuttable(ops, t, i, id) && Variant(db, ops, id, Offered(ops[t])[i].slot, row)
  }

  /** The tables and the arguments of the calls allow slot `id` to hold this row. */
  ghost predicate MayHold(db: Db, ops: seq<Op>, id: Id, row: Slot) {
    && Checks(row)
    && ((id in db.slots && Variant(db, ops, id, db.slots[id], row)) || FromOffer(db, ops, id, row))
  }

  /** ... and to be booked with it. */
  ghost predicate MayBook(db: Db, ops: seq<Op>, id: Id, row: Slot) {
    MayHold(db, ops, id, row) && (id in Booked(db) || exists t :: 0 <= t < |ops| && Racer(ops[t], id))
  }

  // ---- Nothing else is reached ----

  lemma {:induction false} UsersMayExist(ops: seq<Op>, db: Db, run: seq<Event>)
    requires Legal(ops, Initial(db, ops), run)
    ensures forall userId :: userId in After(ops, Initial(db, ops), run).db.users ==> MayExist(db, ops, userId)
  {
    if run != [] {
      UsersMayExist(ops, db, run[..|run| - 1]);
    }
  }

  lemma VersionIsVariant(db: Db, ops: seq<Op>, s: State, id: Id, was: Slot, row: Slot)
    requires Version(ops, s, id, was, row) && id !in Booked(db)
    ensures Variant(db, ops, id, was, row)
  {
    if row != was {
      var t: nat :| RevisedBy(ops, s, t, id, was, row);
      assert Revises(ops[t], id, was, row);
    }
  }

  lemma AccountedSlotIsRequested(ops: seq<Op>, db: Db, s: State, id: Id)
    requires Valid(db) && FreshIds(db, ops) && Accounted(db, ops, s) && Valid(s.db)
    requires forall userId :: userId in s.db.users ==> MayExist(db, ops, userId)
    requires id in s.db.slots && (id in db.slots && id in Booked(db) ==> s.db.slots[id] == db.slots[id])
    ensures MayHold(db, ops, id, s.db.slots[id])
  {
    var row := s.db.slots[id];
    assert SlotAccounted(db, ops, s, id, row);
    if id in db.slots && Version(ops, s, id, db.slots[id], row) {
      if id !in Booked(db) { VersionIsVariant(db, ops, s, id, db.slots[id], row); }
    } else {
      var t: nat, i: nat :| CutBy(ops, s, t, i, id, row);
      assert UnusedIds(db, ops[t]);
      VersionIsVariant(db, ops, s, id, Offered(ops[t])[i].slot, row);
      assert Cuttable(ops, t, i, id);
    }
  }

  /** Under guards that read snapshots, every slot holds a row asked for. */
  lemma ReachedSlotIsRequested(ops: seq<Op>, db: Db, run: seq<Event>, s: State, id: Id)
    requires Valid(db) && FreshIds(db, ops) && HonestlyReachedBy(ops, db, run, s) && id in s.db.slots
    ensures MayHold(db, ops, id, s.db.slots[id])
  {
    ReachableInv(ops, db, run);
    RowsAreAccounted(ops, db, run);
    UsersMayExist(ops, db, run);
    OldBookingsStay(ops, db, run);
    AccountedSlotIsRequested(ops, db, s, id);
  }

  /** ... and every booked slot one asked for and wanted. */
  lemma ReachedBookingIsRequested(ops: seq<Op>, db: Db, run: seq<Event>, s: State, id: Id)
    requires Valid(db) && FreshIds(db, ops) && HonestlyReachedBy(ops, db, run, s)
    requires id in s.db.slots && id in Booked(s.db)
    ensures MayBook(db, ops, id, s.db.slots[id])
  {
    ReachedSlotIsRequested(ops, db, run, s, id);
    RowsAreAccounted(ops, db, run);
    if id !in Booked(db) {
      var t := BookedMeansWon(ops, db, s, id);
    }
  }

  predicate OwnsNoSlots(db: Db, userId: Id) {
    forall id :: id in db.slots ==> db.slots[id].userId != userId
  }

  /** For a user who starts without slots this holds under any guards. */
  lemma NewOwnersSlotIsRequested(ops: seq<Op>, db: Db, run: seq<Event>, s: State, id: Id)
    requires Valid(db) && FreshIds(db, ops) && ReachedBy(ops, db, run, s)
    requires id in s.db.slots && OwnsNoSlots(db, s.db.slots[id].userId)
    ensures id !in db.slots && MayHold(db, ops, id, s.db.slots[id])
    ensures id in Booked(s.db) ==> MayBook(db, ops, id, s.db.slots[id])
  {
    ReachableInv(ops, db, run);
    RowsAreAccounted(ops, db, run);
    UsersMayExist(ops, db, run);
    NewOwnersSlotIsNew(ops, db, s, id);
    AccountedSlotIsRequested(ops, db, s, id);
    if id in Booked(s.db) {
      var t := BookedMeansWon(ops, db, s, id);
    }
  }

  lemma NewOwnersSlotIsNew(ops: seq<Op>, db: Db, s: State, id: Id)
    requires Valid(db) && FreshIds(db, ops) && Accounted(db, ops, s)
    requires id in s.db.slots && OwnsNoSlots(db, s.db.slots[id].userId)
    ensures id !in db.slots && id !in Booked(db)
  {
    assert SlotAccounted(db, ops, s, id, s.db.slots[id]);
    if t: nat, i: nat :| CutBy(ops, s, t, i, id, s.db.slots[id]) {
      assert UnusedIds(db, ops[t]);
    }
  }

  // ---- All of it happens ----

  lemma CallHappens(ops: seq<Op>, db: Db, run: seq<Event>, s: State, t: nat)
    returns (longer: seq<Event>, s': State)
    requires Valid(db) && FreshIds(db, ops) && LeadsTo(ops, db, run, s) && Quiet(s) && |s.calls| == |ops|
    requires t < |ops| && s.calls[t].Active?
    ensures LeadsTo(ops, db, longer, s') && Quiet(s') && s' == Serially(ops, s, t)
  {
    longer := FinishAlone(ops, db, run, Completions(ops, Initial(db, ops), run), s, t);
    s' := Serially(ops, s, t);
  }

  /** The call has still to start. */
  predicate Waiting(s: State, t: nat) {
    t < |s.calls| && s.calls[t] == Active(0, NOTHING)
  }

  ghost predicate OfferIntact(ops: seq<Op>, s: State, t: nat)
    requires t < |ops|
  {
    forall i :: 0 <= i < |Offered(ops[t])| ==>
      Offered(ops[t])[i].id in s.db.slots && s.db.slots[Offered(ops[t])[i].id] == Offered(ops[t])[i].slot
  }

  /** Only offers and registrations have run, each to its end, and what they brought is there. */
  ghost predicate Laid(ops: seq<Op>, db: Db, s: State) {
    && Quiet(s) && |s.calls| == |ops| && s.db.meetings == db.meetings
    && (forall id :: id in db.slots ==> id in s.db.slots && s.db.slots[id] == db.slots[id])
    && (forall t: nat :: t < |ops| && !ops[t].CreateAvailability? && !ops[t].AddUser? ==> Waiting(s, t))
    && (forall t: nat :: t < |ops| && !Waiting(s, t) ==> OfferIntact(ops, s, t))
  }

  lemma UserHappens(ops: seq<Op>, db: Db, userId: Id) returns (run: seq<Event>, s: State)
    requires Valid(db) && FreshIds(db, ops) && MayExist(db, ops, userId)
    ensures LeadsTo(ops, db, run, s) && Laid(ops, db, s) && userId in s.db.users
  {
    run, s := [], Initial(db, ops);
    if userId !in db.users {
      var t :| 0 <= t < |ops| && ops[t].AddUser? && ops[t].newUserId == userId;
      run, s := CallHappens(ops, db, run, s, t);
    }
  }

  lemma OfferFits(ops: seq<Op>, db: Db, run: seq<Event>, s: State, t: nat, i: nat, id: Id)
    requires Valid(db) && FreshIds(db, ops) && LeadsTo(ops, db, run, s) && |s.calls| == |ops|
    requires Cuttable(ops, t, i, id) && Offered(ops[t])[i].slot.userId in s.db.users && s.calls[t].Active?
    ensures Insertable(s.db, Offered(ops[t]))
  {
    var op, rows := ops[t], Offered(ops[t]);
    ReachableInv(ops, db, run);
    assert CallOk(s.db, op, s.calls[t]);
    PlannedRow(op.userId, op.windows, op.durationMins, i);
    forall k | 0 <= k < |rows| ensures Checks(rows[k].slot) && rows[k].slot.userId in s.db.users {
      PlannedRow(op.userId, op.windows, op.durationMins, k);
    }
  }

  lemma OfferHappens(ops: seq<Op>, db: Db, run: seq<Event>, s: State, t: nat, i: nat, id: Id)
    returns (longer: seq<Event>, s': State)
    requires Valid(db) && FreshIds(db, ops) && LeadsTo(ops, db, run, s) && Quiet(s) && |s.calls| == |ops|
    requires Cuttable(ops, t, i, id) && Offered(ops[t])[i].slot.userId in s.db.users && s.calls[t].Active?
    ensures LeadsTo(ops, db, longer, s') && Quiet(s') && s'.calls == s.calls[t := Ended(Done)]
    ensures s'.db == s.db.(slots := s.db.slots + RowMap(Offered(ops[t])))
    ensures OfferIntact(ops, s', t) && forall c :: c in s.db.slots ==> s'.db.slots[c] == s.db.slots[c]
  {
    OfferFits(ops, db, run, s, t, i, id);
    OfferOutcome(s.db, ops[t]);
    RowMapKeys(Offered(ops[t]));
    longer, s' := CallHappens(ops, db, run, s, t);
  }

  lemma OfferKeepsLaid(ops: seq<Op>, db: Db, s: State, s': State, t: nat)
    requires Laid(ops, db, s) && Quiet(s') && t < |ops| && ops[t].CreateAvailability? && OfferIntact(ops, s', t)
    requires s'.calls == s.calls[t := Ended(Done)] && s'.db.meetings == s.db.meetings
    requires forall c :: c in s.db.slots ==> c in s'.db.slots && s'.db.slots[c] == s.db.slots[c]
    ensures Laid(ops, db, s')
  {
    forall u: nat | u < |ops| && !Waiting(s', u) ensures OfferIntact(ops, s', u) {
      if u != t { assert OfferIntact(ops, s, u); }
    }
    forall u: nat | u < |ops| && !ops[u].CreateAvailability? && !ops[u].AddUser? ensures Waiting(s', u) {
      assert Waiting(s, u);
    }
  }

  /** The slot can be there with a row from which the one asked for is made. */
  lemma BaseHappens(ops: seq<Op>, db: Db, run: seq<Event>, s: State, id: Id, row: Slot)
    returns (longer: seq<Event>, s': State)
    requires Valid(db) && FreshIds(db, ops) && LeadsTo(ops, db, run, s) && Laid(ops, db, s)
    requires MayHold(db, ops, id, row) && row.userId in s.db.users
    ensures LeadsTo(ops, db, longer, s') && Laid(ops, db, s') && s'.db.users == s.db.users
    ensures id in s'.db.slots && Variant(db, ops, id, s'.db.slots[id], row)
    ensures forall c :: c in s.db.slots ==> c in s'.db.slots && s'.db.slots[c] == s.db.slots[c]
  {
    longer, s' := run, s;
    if !(id in db.slots && Variant(db, ops, id, db.slots[id], row)) {
      var t: nat, i: nat :| Cuttable(ops, t, i, id) && Variant(db, ops, id, Offered(ops[t])[i].slot, row);
      if Waiting(s, t) {
        longer, s' := OfferHappens(ops, db, run, s, t, i, id);
        OfferKeepsLaid(ops, db, s, s', t);
      }
      assert OfferIntact(ops, s', t);
    }
  }

  lemma RevisionHappens(ops: seq<Op>, db: Db, run: seq<Event>, s: State, id: Id, row: Slot)
    returns (longer: seq<Event>, s': State)
    requires Valid(db) && FreshIds(db, ops) && LeadsTo(ops, db, run, s) && Quiet(s) && |s.calls| == |ops|
    requires forall t: nat :: t < |ops| && ops[t].Update? && ops[t].slotId == id ==> Waiting(s, t)
    requires id in s.db.slots && Booked(s.db) == Booked(db) && Checks(row)
    requires Variant(db, ops, id, s.db.slots[id], row)
    ensures LeadsTo(ops, db, longer, s') && Quiet(s') && s'.db == s.db.(slots := s.db.slots[id := row])
    ensures |s'.calls| == |ops|
    ensures forall t: nat :: t < |ops| && Waiting(s, t) && !Revises(ops[t], id, s.db.slots[id], row) ==> Waiting(s', t)
  {
    longer, s' := run, s;
    if row != s.db.slots[id] {
      var t :| 0 <= t < |ops| && Revises(ops[t], id, s.db.slots[id], row);
      longer, s' := CallHappens(ops, db, run, s, t);
    }
  }

  lemma VariantKeepsOwner(db: Db, ops: seq<Op>, id: Id, row: Slot)
    requires Valid(db) && MayHold(db, ops, id, row)
    ensures MayExist(db, ops, row.userId)
  {
  }

  /** Any row asked for can be there. */
  lemma RequestedSlotHappens(ops: seq<Op>, db: Db, id: Id, row: Slot) returns (run: seq<Event>, s: State, was: Slot)
    requires Valid(db) && FreshIds(db, ops) && MayHold(db, ops, id, row)
    ensures LeadsTo(ops, db, run, s) && Quiet(s) && |s.calls| == |ops|
    ensures s.db.meetings == db.meetings && id in s.db.slots && s.db.slots[id] == row
    ensures forall t: nat ::
              t < |ops| && !ops[t].CreateAvailability? && !ops[t].AddUser? && !Revises(ops[t], id, was, row)
              ==> Waiting(s, t)
  {
    VariantKeepsOwner(db, ops, id, row);
    run, s := UserHappens(ops, db, row.userId);
    run, s := BaseHappens(ops, db, run, s, id, row);
    assert Booked(s.db) == Booked(db);
    was := s.db.slots[id];
    run, s := RevisionHappens(ops, db, run, s, id, row);
  }

  /** Any two rows asked for can be there together. */
  lemma RequestedSlotsHappen(ops: seq<Op>, db: Db, a: Id, x: Slot, b: Id, y: Slot)
    returns (run: seq<Event>, s: State)
    requires Valid(db) && FreshIds(db, ops) && a != b && x.userId == y.userId
    requires MayHold(db, ops, a, x) && MayHold(db, ops, b, y)
    ensures LeadsTo(ops, db, run, s) && Quiet(s) && |s.calls| == |ops| && s.db.meetings == db.meetings
    ensures a in s.db.slots && s.db.slots[a] == x && b in s.db.slots && s.db.slots[b] == y
    ensures forall t: nat :: t < |ops| && ops[t].BookMeeting? ==> Waiting(s, t)
  {
    VariantKeepsOwner(db, ops, a, x);
    run, s := UserHappens(ops, db, x.userId);
    run, s := BaseHappens(ops, db, run, s, a, x);
    run, s := BaseHappens(ops, db, run, s, b, y);
    run, s := BothRevisionsHappen(ops, db, run, s, a, x, b, y);
  }

  lemma BothRevisionsHappen(ops: seq<Op>, db: Db, run: seq<Event>, s: State, a: Id, x: Slot, b: Id, y: Slot)
    returns (longer: seq<Event>, s': State)
    requires Valid(db) && FreshIds(db, ops) && LeadsTo(ops, db, run, s) && Laid(ops, db, s) && a != b
    requires a in s.db.slots && Checks(x) && Variant(db, ops, a, s.db.slots[a], x)
    requires b in s.db.slots && Checks(y) && Variant(db, ops, b, s.db.slots[b], y)
    ensures LeadsTo(ops, db, longer, s') && s'.db == s.db.(slots := s.db.slots[a := x][b := y])
    ensures Quiet(s') && |s'.calls| == |ops|
    ensures forall t: nat :: t < |ops| && ops[t].BookMeeting? ==> Waiting(s', t)
  {
    assert Booked(s.db) == Booked(db);
    var middle: State;
    longer, middle := RevisionHappens(ops, db, run, s, a, x);
    assert Booked(middle.db) == Booked(db);
    longer, s' := RevisionHappens(ops, db, longer, middle, b, y);
  }

  // ---- ... and be booked ----

  lemma BookingHappens(ops: seq<Op>, db: Db, run: seq<Event>, s: State, t: nat)
    returns (longer: seq<Event>, s': State)
    requires Valid(db) && FreshIds(db, ops) && LeadsTo(ops, db, run, s) && Quiet(s) && |s.calls| == |ops|
    requires t < |ops| && ops[t].BookMeeting? && s.calls[t].Active?
    requires CanBook(s.db, ops[t].meetingId, ops[t].meeting.timeslotId)
    ensures LeadsTo(ops, db, longer, s') && Quiet(s') && s'.calls == s.calls[t := Ended(Done)]
    ensures s'.db.slots == s.db.slots && s'.db.meetings == s.db.meetings[ops[t].meetingId := ops[t].meeting]
    ensures Booked(s'.db) == Booked(s.db) + {ops[t].meeting.timeslotId}
  {
    BookingOutcome(s.db, ops[t]);
    longer, s' := CallHappens(ops, db, run, s, t);
    BookedAfter(s.db, ops[t].meetingId, ops[t].meeting);
    assert Booked(s'.db) == Booked(s.db.(meetings := s'.db.meetings));
  }

  /** The slot is booked, or a booking of it with a new id is still to come. */
  predicate Bookable(ops: seq<Op>, s: State, id: Id) {
    || id in Booked(s.db)
    || exists t: nat :: t < |ops| && Racer(ops[t], id) && Waiting(s, t) && ops[t].meetingId !in s.db.meetings
  }

  lemma WantedSlotIsBooked(ops: seq<Op>, db: Db, run: seq<Event>, s: State, id: Id, other: Id)
    returns (longer: seq<Event>, s': State)
    requires Valid(db) && FreshIds(db, ops) && FreshMeetings(db, ops)
    requires LeadsTo(ops, db, run, s) && Quiet(s) && |s.calls| == |ops|
    requires id in s.db.slots && Bookable(ops, s, id) && Bookable(ops, s, other)
    ensures LeadsTo(ops, db, longer, s') && Quiet(s') && |s'.calls| == |ops| && s'.db.slots == s.db.slots
    ensures id in Booked(s'.db) && Bookable(ops, s', other) && Booked(s.db) <= Booked(s'.db)
  {
    longer, s' := run, s;
    if id !in Booked(s.db) {
      var t: nat :| t < |ops| && Racer(ops[t], id) && Waiting(s, t) && ops[t].meetingId !in s.db.meetings;
      longer, s' := BookingHappens(ops, db, run, s, t);
      if other !in Booked(s'.db) {
        var u: nat :| u < |ops| && Racer(ops[u], other) && Waiting(s, u) && ops[u].meetingId !in s.db.meetings;
        assert u != t && Waiting(s', u);
      }
    }
  }

  lemma WantedIsBookable(ops: seq<Op>, db: Db, s: State, id: Id, row: Slot)
    requires FreshMeetings(db, ops) && MayBook(db, ops, id, row) && s.db.meetings == db.meetings
    requires forall t: nat :: t < |ops| && ops[t].BookMeeting? ==> Waiting(s, t)
    ensures Bookable(ops, s, id)
  {
    if id in Booked(db) {
      assert Booked(s.db) == Booked(db);
    } else {
      var t :| 0 <= t < |ops| && Racer(ops[t], id);
      assert Waiting(s, t);
    }
  }

  /** Any two rows asked for and wanted by bookings can be there, booked, together. */
  lemma RequestedBookingsHappen(ops: seq<Op>, db: Db, a: Id, x: Slot, b: Id, y: Slot)
    returns (run: seq<Event>, s: State)
    requires Valid(db) && FreshIds(db, ops) && FreshMeetings(db, ops) && a != b && x.userId == y.userId
    requires MayBook(db, ops, a, x) && MayBook(db, ops, b, y)
    ensures LeadsTo(ops, db, run, s) && a in Booked(s.db) && b in Booked(s.db)
    ensures a in s.db.slots && s.db.slots[a] == x && b in s.db.slots && s.db.slots[b] == y
  {
    run, s := RequestedSlotsHappen(ops, db, a, x, b, y);
    WantedIsBookable(ops, db, s, a, x);
    WantedIsBookable(ops, db, s, b, y);
    run, s := WantedSlotIsBooked(ops, db, run, s, a, b);
    run, s := WantedSlotIsBooked(ops, db, run, s, b, a);
  }
}
