/** When a user's slots and meetings can overlap. Nothing in the schema compares the periods of two
    slots, so they can: exactly when the calls themselves ask for it. */
module Clashes {
  import opened Schema
  import opened Slicing
  import opened Transactions
  import opened Protocol
  import opened Serializability
  import opened Provenance
  import opened Guarantees
  import opened Snapshots
  import opened Requests
  import opened Listing

  predicate Separate(x: Slot, y: Slot) {
    !Overlap(x.startAt, x.endAt, y.startAt, y.endAt)
  }

  ghost predicate SlotsApart(db: Db, userId: Id) {
    forall a, b ::
      && a != b && a in db.slots && b in db.slots
      && db.slots[a].userId == userId && db.slots[b].userId == userId
      ==> Separate(db.slots[a], db.slots[b])
  }

  ghost predicate CalendarApart(db: Db, userId: Id) {
    forall m, n :: m != n && OnCalendar(db, userId, m) && OnCalendar(db, userId, n) ==>
      var view := CalendarView(db, userId);
      !Overlap(view[m].startAt, view[m].endAt, view[n].startAt, view[n].endAt)
  }

  // ---- A given run ----

  predicate Updated(ops: seq<Op>, s: State, id: Id) {
    exists t :: 0 <= t < |ops| && Succeeded(s, t, Rows(1)) && ops[t].Update? && ops[t].slotId == id
  }

  /** A slot that no successful update has touched lies in a window of the offer that created it
      and spans exactly its duration. */
  lemma SlotSpansItsDuration(ops: seq<Op>, db: Db, run: seq<Event>, s: State, id: Id) returns (t: nat)
    requires Valid(db) && FreshIds(db, ops) && ReachedBy(ops, db, run, s)
    requires id in s.db.slots && id !in db.slots && !Updated(ops, s, id)
    ensures t < |ops| && Succeeded(s, t, Done) && ops[t].CreateAvailability? && HandsOut(ops[t], id)
    ensures s.db.slots[id].userId == ops[t].userId && s.db.slots[id].durationMins == ops[t].durationMins
    ensures s.db.slots[id].endAt - s.db.slots[id].startAt == s.db.slots[id].durationMins * MINUTE
    ensures exists k :: 0 <= k < |ops[t].windows| && RowInWindow(s.db.slots[id], ops[t].windows[k])
  {
    RowsAreAccounted(ops, db, run);
    t := UntouchedSlotIsPlanned(ops, db, s, id);
  }

  lemma UntouchedSlotIsPlanned(ops: seq<Op>, db: Db, s: State, id: Id) returns (t: nat)
    requires Accounted(db, ops, s)
    requires id in s.db.slots && id !in db.slots && !Updated(ops, s, id)
    ensures t < |ops| && Succeeded(s, t, Done) && ops[t].CreateAvailability? && HandsOut(ops[t], id)
    ensures s.db.slots[id].userId == ops[t].userId && s.db.slots[id].durationMins == ops[t].durationMins
    ensures s.db.slots[id].endAt - s.db.slots[id].startAt == s.db.slots[id].durationMins * MINUTE
    ensures exists k :: 0 <= k < |ops[t].windows| && RowInWindow(s.db.slots[id], ops[t].windows[k])
  {
    assert SlotAccounted(db, ops, s, id, s.db.slots[id]);
    var i: nat;
    t, i :| CutBy(ops, s, t, i, id, s.db.slots[id]);
    PlannedRow(ops[t].userId, ops[t].windows, ops[t].durationMins, i);
  }

  predicate Offering(ops: seq<Op>, s: State, userId: Id, t: nat) {
    t < |ops| && ops[t].CreateAvailability? && ops[t].userId == userId && Succeeded(s, t, Done)
  }

  /** All windows of the user's successful offers are pairwise disjoint. */
  ghost predicate WindowsDisjoint(ops: seq<Op>, s: State, userId: Id) {
    && (forall t: nat :: Offering(ops, s, userId, t) ==> PairwiseDisjoint(ops[t].windows))
    && (forall t: nat, u: nat, i, j ::
          && Offering(ops, s, userId, t) && 0 <= i < |ops[t].windows|
          && Offering(ops, s, userId, u) && 0 <= j < |ops[u].windows| && t != u
          ==> DisjointWindows(ops[t].windows[i], ops[u].windows[j]))
  }

  /** ... and they avoid the slots the user had before, which do not overlap either. */
  ghost predicate OldSlotsAvoided(db: Db, ops: seq<Op>, s: State, userId: Id) {
    && SlotsApart(db, userId)
    && forall t: nat, i, id ::
         && Offering(ops, s, userId, t) && 0 <= i < |ops[t].windows|
         && id in db.slots && db.slots[id].userId == userId
         ==> DisjointWindows(ops[t].windows[i], Window(db.slots[id].startAt, db.slots[id].endAt))
  }

  lemma OfferedRowsDisjoint(ops: seq<Op>, s: State, userId: Id, t: nat, i: nat, u: nat, j: nat)
    requires WindowsDisjoint(ops, s, userId) && Offering(ops, s, userId, t) && Offering(ops, s, userId, u)
    requires i < |Offered(ops[t])| && j < |Offered(ops[u])| && Offered(ops[t])[i].id != Offered(ops[u])[j].id
    requires Checks(Offered(ops[t])[i].slot) && Checks(Offered(ops[u])[j].slot)
    ensures Separate(Offered(ops[t])[i].slot, Offered(ops[u])[j].slot)
  {
    var p, q := ops[t], ops[u];
    PlannedRow(p.userId, p.windows, p.durationMins, i);
    PlannedRow(q.userId, q.windows, q.durationMins, j);
    if t == u {
      if i < j {
        PlannedRowsDisjoint(p.userId, p.windows, p.durationMins, i, j);
      } else {
        PlannedRowsDisjoint(p.userId, p.windows, p.durationMins, j, i);
      }
    } else {
      var v :| 0 <= v < |p.windows| && RowInWindow(Offered(p)[i].slot, p.windows[v]);
      var w :| 0 <= w < |q.windows| && RowInWindow(Offered(q)[j].slot, q.windows[w]);
      assert DisjointWindows(p.windows[v], q.windows[w]);
    }
  }

  /** A slot no successful update has touched is one from before, or a row of a successful offer. */
  lemma UntouchedSlotIsKnown(ops: seq<Op>, db: Db, s: State, id: Id) returns (known: bool, t: nat, i: nat)
    requires FreshIds(db, ops) && Accounted(db, ops, s) && id in s.db.slots && !Updated(ops, s, id)
    ensures known ==> id in db.slots && s.db.slots[id] == db.slots[id]
    ensures !known ==>
              && Offering(ops, s, s.db.slots[id].userId, t)
              && i < |Offered(ops[t])| && Offered(ops[t])[i] == Row(id, s.db.slots[id]) && Checks(s.db.slots[id])
  {
    var row := s.db.slots[id];
    assert SlotAccounted(db, ops, s, id, row);
    known, t, i := id in db.slots && Version(ops, s, id, db.slots[id], row), 0, 0;
    if known {
      UntouchedVersion(ops, s, id, db.slots[id], row);
    } else {
      t, i :| CutBy(ops, s, t, i, id, row);
      UntouchedVersion(ops, s, id, Offered(ops[t])[i].slot, row);
      OfferIsOwners(ops[t], i);
    }
  }

  lemma UntouchedVersion(ops: seq<Op>, s: State, id: Id, was: Slot, row: Slot)
    requires Version(ops, s, id, was, row) && !Updated(ops, s, id)
    ensures row == was
  {
  }

  lemma OfferIsOwners(op: Op, i: nat)
    requires i < |Offered(op)|
    ensures op.CreateAvailability? && Offered(op)[i].slot.userId == op.userId
  {
    PlannedRow(op.userId, op.windows, op.durationMins, i);
  }

  lemma OfferedRowAvoidsOldSlot(db: Db, ops: seq<Op>, s: State, userId: Id, t: nat, i: nat, id: Id)
    requires OldSlotsAvoided(db, ops, s, userId) && Offering(ops, s, userId, t) && i < |Offered(ops[t])|
    requires Checks(Offered(ops[t])[i].slot) && id in db.slots && db.slots[id].userId == userId
    ensures Separate(Offered(ops[t])[i].slot, db.slots[id])
  {
    var p := ops[t];
    PlannedRow(p.userId, p.windows, p.durationMins, i);
    var v :| 0 <= v < |p.windows| && RowInWindow(Offered(p)[i].slot, p.windows[v]);
    assert DisjointWindows(p.windows[v], Window(db.slots[id].startAt, db.slots[id].endAt));
  }

  /** If the windows a user has successfully offered are disjoint and avoid the slots from before,
      and none of the user's slots was successfully updated, the slots do not overlap. */
  lemma SlotsDoNotOverlap(ops: seq<Op>, db: Db, run: seq<Event>, s: State, userId: Id)
    requires Valid(db) && FreshIds(db, ops) && ReachedBy(ops, db, run, s)
    requires WindowsDisjoint(ops, s, userId) && OldSlotsAvoided(db, ops, s, userId)
    requires forall id :: id in s.db.slots && s.db.slots[id].userId == userId ==> !Updated(ops, s, id)
    ensures SlotsApart(s.db, userId)
  {
    var slots := s.db.slots;
    RowsAreAccounted(ops, db, run);
    forall a, b | a != b && a in slots && b in slots && slots[a].userId == userId && slots[b].userId == userId
      ensures Separate(slots[a], slots[b])
    {
      UntouchedSlotsSeparate(ops, db, s, userId, a, b);
    }
  }

  lemma UntouchedSlotsSeparate(ops: seq<Op>, db: Db, s: State, userId: Id, a: Id, b: Id)
    requires FreshIds(db, ops) && Accounted(db, ops, s) && a != b
    requires WindowsDisjoint(ops, s, userId) && OldSlotsAvoided(db, ops, s, userId)
    requires a in s.db.slots && s.db.slots[a].userId == userId && !Updated(ops, s, a)
    requires b in s.db.slots && s.db.slots[b].userId == userId && !Updated(ops, s, b)
    ensures Separate(s.db.slots[a], s.db.slots[b])
  {
    var oldA, t, i := UntouchedSlotIsKnown(ops, db, s, a);
    var oldB, u, j := UntouchedSlotIsKnown(ops, db, s, b);
    if !oldA && !oldB {
      OfferedRowsDisjoint(ops, s, userId, t, i, u, j);
    } else if !oldA {
      OfferedRowAvoidsOldSlot(db, ops, s, userId, t, i, b);
    } else if !oldB {
      OfferedRowAvoidsOldSlot(db, ops, s, userId, u, j, a);
    }
  }

  /** ... and neither do the meetings on the user's calendar: two meetings have two slots. */
  lemma MeetingsDoNotClash(ops: seq<Op>, db: Db, run: seq<Event>, s: State, userId: Id)
    requires Valid(db) && FreshIds(db, ops) && ReachedBy(ops, db, run, s)
    requires WindowsDisjoint(ops, s, userId) && OldSlotsAvoided(db, ops, s, userId)
    requires forall id :: id in s.db.slots && s.db.slots[id].userId == userId ==> !Updated(ops, s, id)
    ensures CalendarApart(s.db, userId)
  {
    ReachableInv(ops, db, run);
    SlotsDoNotOverlap(ops, db, run, s, userId);
  }

  // ---- All runs: exactly when nothing overlaps ----

  /** No two rows of the user that are asked for overlap. */
  ghost predicate RequestsApart(db: Db, ops: seq<Op>, userId: Id) {
    forall a, x: Slot, b, y: Slot ::
      a != b && x.userId == userId && y.userId == userId && MayHold(db, ops, a, x) && MayHold(db, ops, b, y)
      ==> Separate(x, y)
  }

  /** No two that are also booked or wanted by bookings do. */
  ghost predicate BookedRequestsApart(db: Db, ops: seq<Op>, userId: Id) {
    forall a, x: Slot, b, y: Slot ::
      a != b && x.userId == userId && y.userId == userId && MayBook(db, ops, a, x) && MayBook(db, ops, b, y)
      ==> Separate(x, y)
  }

  /** In every reachable state, under any guards, the user's slots do not overlap. */
  ghost predicate SlotsAlwaysApart(db: Db, ops: seq<Op>, userId: Id) {
    forall run, s :: ReachedBy(ops, db, run, s) ==> SlotsApart(s.db, userId)
  }

  /** ... under guards that read snapshots. */
  ghost predicate SlotsApartUnderHonesty(db: Db, ops: seq<Op>, userId: Id) {
    forall run, s :: HonestlyReachedBy(ops, db, run, s) ==> SlotsApart(s.db, userId)
  }

  /** ... under truthful guards. */
  ghost predicate SlotsApartUnderTruth(db: Db, ops: seq<Op>, userId: Id) {
    forall run, s :: LeadsTo(ops, db, run, s) ==> SlotsApart(s.db, userId)
  }

  ghost predicate CalendarAlwaysApart(db: Db, ops: seq<Op>, userId: Id) {
    forall run, s :: ReachedBy(ops, db, run, s) ==> CalendarApart(s.db, userId)
  }

  ghost predicate CalendarApartUnderHonesty(db: Db, ops: seq<Op>, userId: Id) {
    forall run, s :: HonestlyReachedBy(ops, db, run, s) ==> CalendarApart(s.db, userId)
  }

  ghost predicate CalendarApartUnderTruth(db: Db, ops: seq<Op>, userId: Id) {
    forall run, s :: LeadsTo(ops, db, run, s) ==> CalendarApart(s.db, userId)
  }

  /** The user's slots never overlap, under guards that read snapshots, if and only if no two rows
      of the user that are asked for overlap. Truthful guards make no difference, and for a user
      without slots at first neither do guards that read anything. */
  lemma SlotsApartExactly(ops: seq<Op>, db: Db, userId: Id)
    requires Valid(db) && FreshIds(db, ops)
    ensures SlotsApartUnderHonesty(db, ops, userId) <==> RequestsApart(db, ops, userId)
    ensures SlotsApartUnderTruth(db, ops, userId) <==> RequestsApart(db, ops, userId)
    ensures OwnsNoSlots(db, userId) ==> (SlotsAlwaysApart(db, ops, userId) <==> RequestsApart(db, ops, userId))
  {
    if RequestsApart(db, ops, userId) {
      SlotsStayApart(ops, db, userId);
    } else {
      SlotsMayOverlap(ops, db, userId);
    }
  }

  lemma SlotsStayApart(ops: seq<Op>, db: Db, userId: Id)
    requires Valid(db) && FreshIds(db, ops) && RequestsApart(db, ops, userId)
    ensures SlotsApartUnderHonesty(db, ops, userId) && SlotsApartUnderTruth(db, ops, userId)
    ensures OwnsNoSlots(db, userId) ==> SlotsAlwaysApart(db, ops, userId)
  {
    forall run, s | ReachedBy(ops, db, run, s) && (HonestlyReachedBy(ops, db, run, s) || OwnsNoSlots(db, userId))
      ensures SlotsApart(s.db, userId)
    {
      forall id | id in s.db.slots && s.db.slots[id].userId == userId ensures MayHold(db, ops, id, s.db.slots[id]) {
        OwnSlotIsRequested(ops, db, run, s, id);
      }
    }
    TruthIsHonestAnywhere(ops, db);
  }

  lemma TruthIsHonestAnywhere(ops: seq<Op>, db: Db)
    requires Valid(db) && FreshIds(db, ops)
    ensures forall run, s :: LeadsTo(ops, db, run, s) ==> HonestlyReachedBy(ops, db, run, s)
  {
    forall run, s | LeadsTo(ops, db, run, s) ensures HonestlyReachedBy(ops, db, run, s) {
      TruthIsHonest(ops, db, run);
    }
  }

  lemma OwnSlotIsRequested(ops: seq<Op>, db: Db, run: seq<Event>, s: State, id: Id)
    requires Valid(db) && FreshIds(db, ops) && ReachedBy(ops, db, run, s) && id in s.db.slots
    requires HonestlyReachedBy(ops, db, run, s) || OwnsNoSlots(db, s.db.slots[id].userId)
    ensures MayHold(db, ops, id, s.db.slots[id])
    ensures id in Booked(s.db) ==> MayBook(db, ops, id, s.db.slots[id])
  {
    if HonestlyReachedBy(ops, db, run, s) {
      ReachedSlotIsRequested(ops, db, run, s, id);
      if id in Booked(s.db) { ReachedBookingIsRequested(ops, db, run, s, id); }
    } else {
      NewOwnersSlotIsRequested(ops, db, run, s, id);
    }
  }

  lemma SlotsMayOverlap(ops: seq<Op>, db: Db, userId: Id)
    requires Valid(db) && FreshIds(db, ops) && !RequestsApart(db, ops, userId)
    ensures !SlotsApartUnderTruth(db, ops, userId) && !SlotsApartUnderHonesty(db, ops, userId)
    ensures !SlotsAlwaysApart(db, ops, userId)
  {
    var a, x: Slot, b, y: Slot :| a != b && x.userId == userId && y.userId == userId
                      && MayHold(db, ops, a, x) && MayHold(db, ops, b, y) && !Separate(x, y);
    var run, s := RequestedSlotsHappen(ops, db, a, x, b, y);
    TruthIsHonestAnywhere(ops, db);
    assert HonestlyReachedBy(ops, db, run, s) && ReachedBy(ops, db, run, s);
  }

  /** The meetings on the user's calendar never overlap, under guards that read snapshots, if and
      only if no two rows of the user overlap that are asked for and booked or wanted by bookings.
      Truthful guards make no difference, and for a user without slots at first neither do guards
      that read anything. */
  lemma CalendarApartExactly(ops: seq<Op>, db: Db, userId: Id)
    requires Valid(db) && FreshIds(db, ops) && FreshMeetings(db, ops)
    ensures CalendarApartUnderHonesty(db, ops, userId) <==> BookedRequestsApart(db, ops, userId)
    ensures CalendarApartUnderTruth(db, ops, userId) <==> BookedRequestsApart(db, ops, userId)
    ensures OwnsNoSlots(db, userId) ==> (CalendarAlwaysApart(db, ops, userId) <==> BookedRequestsApart(db, ops, userId))
  {
    if BookedRequestsApart(db, ops, userId) {
      CalendarStaysApart(ops, db, userId);
    } else {
      CalendarMayOverlap(ops, db, userId);
    }
  }

  lemma CalendarStaysApart(ops: seq<Op>, db: Db, userId: Id)
    requires Valid(db) && FreshIds(db, ops) && BookedRequestsApart(db, ops, userId)
    ensures CalendarApartUnderHonesty(db, ops, userId) && CalendarApartUnderTruth(db, ops, userId)
    ensures OwnsNoSlots(db, userId) ==> CalendarAlwaysApart(db, ops, userId)
  {
    forall run, s | ReachedBy(ops, db, run, s) && (HonestlyReachedBy(ops, db, run, s) || OwnsNoSlots(db, userId))
      ensures CalendarApart(s.db, userId)
    {
      RequestsKeepCalendarApart(ops, db, run, s, userId);
    }
    TruthIsHonestAnywhere(ops, db);
  }

  lemma RequestsKeepCalendarApart(ops: seq<Op>, db: Db, run: seq<Event>, s: State, userId: Id)
    requires Valid(db) && FreshIds(db, ops) && BookedRequestsApart(db, ops, userId) && ReachedBy(ops, db, run, s)
    requires HonestlyReachedBy(ops, db, run, s) || OwnsNoSlots(db, userId)
    ensures CalendarApart(s.db, userId)
  {
    ReachableInv(ops, db, run);
    forall m, n | m != n && OnCalendar(s.db, userId, m) && OnCalendar(s.db, userId, n)
      ensures Separate(s.db.slots[s.db.meetings[m].timeslotId], s.db.slots[s.db.meetings[n].timeslotId])
    {
      OwnSlotIsRequested(ops, db, run, s, s.db.meetings[m].timeslotId);
      OwnSlotIsRequested(ops, db, run, s, s.db.meetings[n].timeslotId);
    }
  }

  lemma CalendarMayOverlap(ops: seq<Op>, db: Db, userId: Id)
    requires Valid(db) && FreshIds(db, ops) && FreshMeetings(db, ops) && !BookedRequestsApart(db, ops, userId)
    ensures !CalendarApartUnderTruth(db, ops, userId) && !CalendarApartUnderHonesty(db, ops, userId)
    ensures !CalendarAlwaysApart(db, ops, userId)
  {
    var a, x: Slot, b, y: Slot :| a != b && x.userId == userId && y.userId == userId
                      && MayBook(db, ops, a, x) && MayBook(db, ops, b, y) && !Separate(x, y);
    var run, s := RequestedBookingsHappen(ops, db, a, x, b, y);
    OverlapSpoilsCalendar(s.db, userId, a, b);
    TruthIsHonestAnywhere(ops, db);
    assert HonestlyReachedBy(ops, db, run, s) && ReachedBy(ops, db, run, s);
  }

  lemma OverlapSpoilsCalendar(db: Db, userId: Id, a: Id, b: Id)
    requires a != b && a in db.slots && b in db.slots && a in Booked(db) && b in Booked(db)
    requires db.slots[a].userId == userId && db.slots[b].userId == userId && !Separate(db.slots[a], db.slots[b])
    ensures !CalendarApart(db, userId)
  {
    var m :| m in db.meetings && db.meetings[m].timeslotId == a;
    var n :| n in db.meetings && db.meetings[n].timeslotId == b;
    assert m in CalendarView(db, userId) && n in CalendarView(db, userId);
  }
}
