/** Write, then read: what an operation changes in the answers to the list of slots. Every row is
    written out; a row appears when its slot starts inside the asked window and not before now. */
module Readback {
  import opened Schema
  import opened Slicing
  import opened Transactions
  import opened Guarantees
  import opened Listing

  /** `before` and `after` answer the same query on the tables before and after. */
  ghost predicate Asked(db: Db, db': Db, userId: Id, a: int, c: int, now: int,
                        before: seq<AllottedRow>, after: seq<AllottedRow>)
  {
    Answers(db, userId, a, c, now, before) && Answers(db', userId, a, c, now, after)
  }

  predicate Shown(startAt: int, a: int, c: int, now: int) {
    a <= startAt && now <= startAt && startAt < c
  }

  /** What the rows say, without reference to any operation: who owns the slot, its times and its
      duration, and whether a meeting has it. */
  lemma RowSays(db: Db, userId: Id, a: int, c: int, now: int, rows: seq<AllottedRow>, r: AllottedRow)
    requires Answers(db, userId, a, c, now, rows)
    ensures r in rows <==>
            && r.id in db.slots && db.slots[r.id] == Slot(userId, r.startAt, r.endAt, r.durationMins)
            && Shown(r.startAt, a, c, now)
            && (r.isBooked <==> exists m :: m in db.meetings && db.meetings[m].timeslotId == r.id)
  {
  }

  // ---- Offers ----

  /** Row r is slot i cut from window n of the offer: its id is the one handed out for it. */
  predicate CutRow(op: Op, n: nat, i: nat, r: AllottedRow)
    requires op.CreateAvailability? && InRange(op.durationMins)
  {
    && n < |op.windows| && i < Fitting(op.windows[n], op.durationMins)
    && var k, length := FittingBefore(op.windows, op.durationMins, n) + i, op.durationMins * 60_000_000_000;
       && k < |op.ids|
       && r == AllottedRow(op.ids[k], op.windows[n].startAt + i * length, op.windows[n].startAt + (i + 1) * length,
                           op.durationMins, false)
  }

  lemma CutRowIsOffered(op: Op, n: nat, i: nat, r: AllottedRow)
    requires op.CreateAvailability? && InRange(op.durationMins) && CutRow(op, n, i, r)
    ensures exists k :: 0 <= k < |Offered(op)| &&
              Offered(op)[k] == Row(r.id, Slot(op.userId, r.startAt, r.endAt, r.durationMins))
  {
    var k := FittingBefore(op.windows, op.durationMins, n) + i;
    PlannedRowAt(op.userId, op.windows, op.durationMins, n, i);
    assert Offered(op)[k] == Row(r.id, Slot(op.userId, r.startAt, r.endAt, r.durationMins));
  }

  lemma OfferedIsCutRow(op: Op, k: nat) returns (n: nat, i: nat)
    requires op.CreateAvailability? && InRange(op.durationMins) && k < |Offered(op)| && |Offered(op)| <= |op.ids|
    ensures var row := Offered(op)[k];
            CutRow(op, n, i, AllottedRow(row.id, row.slot.startAt, row.slot.endAt, row.slot.durationMins, false))
  {
    n, i := PlannedRowIsOne(op.userId, op.windows, op.durationMins, k);
    PlannedRowAt(op.userId, op.windows, op.durationMins, n, i);
  }

  /** After a successful offer the owner's answer has gained exactly one unbooked row for every slot
      cut from the windows that starts inside the asked window, with its times, the offered duration
      and its own id; other answers are the same. */
  lemma OfferShows(db: Db, op: Op, userId: Id, a: int, c: int, now: int,
                   before: seq<AllottedRow>, after: seq<AllottedRow>)
    requires Valid(db) && op.CreateAvailability? && |Offered(op)| <= |op.ids|
    requires Serial(db, op).1 == Done && Offered(op) != []
    requires Asked(db, Serial(db, op).0, userId, a, c, now, before, after)
    ensures InRange(op.durationMins) && Distinct(after)
    ensures forall r :: r in after <==>
              r in before || (userId == op.userId && Shown(r.startAt, a, c, now) && IsCutRow(op, r))
    ensures forall r :: r in before ==> !IsCutRow(op, r)
  {
    OfferOutcome(db, op);
    PlannedRow(op.userId, op.windows, op.durationMins, 0);
    assert Checks(Offered(op)[0].slot);
    RowMapKeys(Offered(op));
    NewSlotsAreUnbooked(db, op);
    forall r
      ensures r in after <==> r in before || (userId == op.userId && Shown(r.startAt, a, c, now) && IsCutRow(op, r))
    {
      OfferShowsRow(db, op, userId, a, c, now, before, after, r);
    }
    forall r | r in before ensures !IsCutRow(op, r) {
      if n: nat, i: nat :| CutRow(op, n, i, r) { CutRowIsOffered(op, n, i, r); }
    }
  }

  lemma NewSlotsAreUnbooked(db: Db, op: Op)
    requires Valid(db) && op.CreateAvailability? && Insertable(db, Offered(op))
    ensures forall i :: 0 <= i < |Offered(op)| ==> Offered(op)[i].id !in Booked(Serial(db, op).0)
  {
    OfferOutcome(db, op);
  }

  lemma OfferShowsRow(db: Db, op: Op, userId: Id, a: int, c: int, now: int,
                      before: seq<AllottedRow>, after: seq<AllottedRow>, r: AllottedRow)
    requires Valid(db) && op.CreateAvailability? && |Offered(op)| <= |op.ids| && InRange(op.durationMins)
    requires Serial(db, op).1 == Done && Asked(db, Serial(db, op).0, userId, a, c, now, before, after)
    ensures r in after <==> r in before || (userId == op.userId && Shown(r.startAt, a, c, now) && IsCutRow(op, r))
  {
    OfferOutcome(db, op);
    RowMapKeys(Offered(op));
    RowSays(db, userId, a, c, now, before, r);
    RowSays(Serial(db, op).0, userId, a, c, now, after, r);
    if r.id in RowMap(Offered(op)) {
      NewRowSays(db, op, r);
    } else if n: nat, i: nat :| CutRow(op, n, i, r) {
      CutRowIsOffered(op, n, i, r);
    }
  }

  ghost predicate IsCutRow(op: Op, r: AllottedRow)
    requires op.CreateAvailability? && InRange(op.durationMins)
  {
    exists n: nat, i: nat :: CutRow(op, n, i, r)
  }

  /** A row with the id of a new slot is cut from a window if and only if it says what the slot is. */
  lemma NewRowSays(db: Db, op: Op, r: AllottedRow)
    requires Valid(db) && op.CreateAvailability? && |Offered(op)| <= |op.ids| && InRange(op.durationMins)
    requires Insertable(db, Offered(op)) && r.id in RowMap(Offered(op))
    ensures IsCutRow(op, r) <==>
            RowMap(Offered(op))[r.id] == Slot(op.userId, r.startAt, r.endAt, r.durationMins) && !r.isBooked
    ensures RowMap(Offered(op))[r.id].userId == op.userId && r.id !in Booked(Serial(db, op).0) && r.id !in db.slots
  {
    RowMapKeys(Offered(op));
    NewSlotsAreUnbooked(db, op);
    var k: nat :| k < |Offered(op)| && Offered(op)[k] == Row(r.id, RowMap(Offered(op))[r.id]);
    PlannedRow(op.userId, op.windows, op.durationMins, k);
    var n, i := OfferedIsCutRow(op, k);
    if n': nat, i': nat :| CutRow(op, n', i', r) {
      CutRowIsOffered(op, n', i', r);
    }
  }

  // ---- Updates, deletes, bookings ----

  /** After a successful update the owner's answer has, of this slot, exactly the row with the given
      start, end and duration, if that start is asked for; nothing else changes, for anybody. */
  lemma UpdateShows(db: Db, op: Op, userId: Id, a: int, c: int, now: int,
                    before: seq<AllottedRow>, after: seq<AllottedRow>)
    requires op.Update? && Serial(db, op).1 == Rows(1)
    requires Asked(db, Serial(db, op).0, userId, a, c, now, before, after)
    ensures op.slotId in db.slots
    ensures forall r: AllottedRow :: r.id == op.slotId ==>
              (r in after <==>
               && userId == db.slots[op.slotId].userId && Shown(op.startAt, a, c, now)
               && r == AllottedRow(op.slotId, op.startAt, op.endAt, op.minutes, false))
    ensures forall r: AllottedRow :: r.id != op.slotId ==> (r in after <==> r in before)
  {
    UpdateExactly(db, Booked(db), op.slotId, op.startAt, op.endAt, op.minutes);
    assert Booked(Serial(db, op).0) == Booked(db);
  }

  /** After a successful delete the slot is in no answer; nothing else changes. */
  lemma DeleteShows(db: Db, op: Op, userId: Id, a: int, c: int, now: int,
                    before: seq<AllottedRow>, after: seq<AllottedRow>)
    requires op.Delete? && Serial(db, op).1 == Rows(1)
    requires Asked(db, Serial(db, op).0, userId, a, c, now, before, after)
    ensures forall r: AllottedRow :: r in after <==> r in before && r.id != op.slotId
  {
    GuardedDeleteRemovesOnlyTheSlot(db, op.slotId);
  }

  /** After a successful booking exactly the rows of its slot change, from free to booked. */
  lemma BookingShowsInSlots(db: Db, op: Op, userId: Id, a: int, c: int, now: int,
                            before: seq<AllottedRow>, after: seq<AllottedRow>)
    requires Valid(db) && op.BookMeeting? && op.meetingId !in db.meetings && Serial(db, op).1 == Done
    requires Asked(db, Serial(db, op).0, userId, a, c, now, before, after)
    ensures forall r: AllottedRow :: r.id != op.meeting.timeslotId ==> (r in after <==> r in before)
    ensures forall r: AllottedRow :: r.id == op.meeting.timeslotId ==>
              && (r in before ==> !r.isBooked) && (r in after ==> r.isBooked)
              && (r.(isBooked := true) in after <==> r.(isBooked := false) in before)
  {
    BookingShows(db, op, userId);
  }

  // ---- Calendars ----

  /** No operation but a booking changes a calendar. */
  lemma OthersLeaveCalendars(db: Db, op: Op, userId: Id)
    requires Valid(db) && !op.BookMeeting?
    ensures CalendarView(Serial(db, op).0, userId) == CalendarView(db, userId)
  {
    OthersLeaveBookings(db, op);
    SameBookingsSameCalendar(db, Serial(db, op).0, userId);
  }

  ghost predicate SameBookings(db: Db, db': Db) {
    && db'.meetings == db.meetings && db'.participants == db.participants
    && forall m :: m in db.meetings ==>
         var id := db.meetings[m].timeslotId; id in db.slots && id in db'.slots && db'.slots[id] == db.slots[id]
  }

  lemma SameBookingsSameCalendar(db: Db, db': Db, userId: Id)
    requires SameBookings(db, db')
    ensures CalendarView(db', userId) == CalendarView(db, userId)
  {
    forall m ensures Attending(db', m) == Attending(db, m) {
    }
  }

  lemma OthersLeaveBookings(db: Db, op: Op)
    requires Valid(db) && !op.BookMeeting?
    ensures SameBookings(db, Serial(db, op).0)
  {
    assert forall m :: m in db.meetings ==> db.meetings[m].timeslotId in Booked(db);
    if op.CreateAvailability? {
      OfferOutcome(db, op);
      RowMapKeys(Offered(op));
    } else if op.Delete? && op.slotId !in Booked(db) {
      GuardedDeleteRemovesOnlyTheSlot(db, op.slotId);
    }
  }

  /** What is frozen on the way from one state to another is on the calendars as it was. */
  lemma FrozenStaysOnCalendar(before: Db, after: Db, userId: Id, m: Id)
    requires Frozen(before, after) && OnCalendar(before, userId, m)
    ensures OnCalendar(after, userId, m) && CalendarView(after, userId)[m] == CalendarView(before, userId)[m]
  {
    assert KeepsSlot(before, after, before.meetings[m].timeslotId);
    forall email ensures email in Attending(before, m) <==> email in Attending(after, m) {
      assert Participant(m, email) in before.participants <==> Participant(m, email) in after.participants;
      assert email in Attending(before, m) <==> Participant(m, email) in before.participants;
      assert email in Attending(after, m) <==> Participant(m, email) in after.participants;
    }
  }

  /** The calendar of a user, written out: the meetings on the user's slots with their titles, the
      times of their slots, and the emails of their participants. */
  lemma CalendarSays(db: Db, userId: Id, m: Id)
    ensures m in CalendarView(db, userId) <==>
            && m in db.meetings && db.meetings[m].timeslotId in db.slots
            && db.slots[db.meetings[m].timeslotId].userId == userId
    ensures m in CalendarView(db, userId) ==>
            var entry, slot := CalendarView(db, userId)[m], db.slots[db.meetings[m].timeslotId];
            && entry.title == db.meetings[m].title && entry.startAt == slot.startAt && entry.endAt == slot.endAt
            && forall email :: email in entry.attendees <==> Participant(m, email) in db.participants
  {
    forall email ensures email in Attending(db, m) <==> Participant(m, email) in db.participants {
      if Participant(m, email) in db.participants { assert Participant(m, email).email in Attending(db, m); }
    }
  }

  /** What the rows of the calendar list say: each is a meeting on one of the user's slots with its
      title, the times of the slot and exactly its participants, each once; no meeting is missing,
      and none is there twice. */
  lemma CalendarRowsSay(db: Db, userId: Id, rows: seq<CalendarRow>, m: Id)
    requires Shows(rows, CalendarView(db, userId))
    ensures (exists i :: 0 <= i < |rows| && rows[i].meetingId == m) <==> OnCalendar(db, userId, m)
    ensures forall i, j :: 0 <= i < |rows| && 0 <= j < |rows| && rows[i].meetingId == rows[j].meetingId == m ==> i == j
    ensures forall i :: 0 <= i < |rows| && rows[i].meetingId == m ==>
              var r, slot := rows[i], db.slots[db.meetings[m].timeslotId];
              && r.title == db.meetings[m].title && r.startAt == slot.startAt && r.endAt == slot.endAt
              && (forall email :: email in r.attendees <==> Participant(m, email) in db.participants)
              && forall k, l :: 0 <= k < l < |r.attendees| ==> r.attendees[k] != r.attendees[l]
  {
    CalendarSays(db, userId, m);
    forall i | 0 <= i < |rows| && rows[i].meetingId == m
      ensures forall email :: email in rows[i].attendees <==> Participant(m, email) in db.participants
    {
      assert RowOfView(rows[i], CalendarView(db, userId));
      assert forall email :: email in rows[i].attendees <==> email in Members(rows[i].attendees);
    }
  }
}
