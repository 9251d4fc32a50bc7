/** Where committed rows come from: in every reachable state, under any guards, each one was there
    at the start or belongs to a call that has succeeded. */
module Provenance {
  import opened Schema
  import opened Transactions
  import opened Protocol
  import opened Serializability

  predicate Succeeded(s: State, t: nat, outcome: Outcome) {
    t < |s.calls| && s.calls[t] == Ended(outcome)
  }

  predicate BookedBy(ops: seq<Op>, s: State, t: nat, m: Id, row: Meeting) {
    t < |ops| && Succeeded(s, t, Done) && ops[t].BookMeeting? && ops[t].meetingId == m && ops[t].meeting == row
  }

  ghost predicate MeetingsAccounted(db: Db, ops: seq<Op>, s: State) {
    forall m :: m in s.db.meetings ==>
      || (m in db.meetings && db.meetings[m] == s.db.meetings[m])
      || exists t: nat :: BookedBy(ops, s, t, m, s.db.meetings[m])
  }

  /** The row after an UPDATE with the call's arguments. */
  function Revised(row: Slot, op: Op): Slot
    requires op.Update?
  {
    row.(startAt := op.startAt, endAt := op.endAt, durationMins := op.minutes)
  }

  predicate RevisedBy(ops: seq<Op>, s: State, t: nat, id: Id, was: Slot, row: Slot) {
    && t < |ops| && Succeeded(s, t, Rows(1))
    && ops[t].Update? && ops[t].slotId == id && row == Revised(was, ops[t])
  }

  /** The row is as it was, or as a successful update has made it. */
  ghost predicate Version(ops: seq<Op>, s: State, id: Id, was: Slot, row: Slot) {
    row == was || exists t: nat :: RevisedBy(ops, s, t, id, was, row)
  }

  /** Row i of a successful offer, or a version of it. */
  ghost predicate CutBy(ops: seq<Op>, s: State, t: nat, i: nat, id: Id, row: Slot) {
    && t < |ops| && Succeeded(s, t, Done)
    && i < |Offered(ops[t])| && Offered(ops[t])[i].id == id && Checks(Offered(ops[t])[i].slot)
    && Version(ops, s, id, Offered(ops[t])[i].slot, row)
  }

  ghost predicate SlotAccounted(db: Db, ops: seq<Op>, s: State, id: Id, row: Slot) {
    || (id in db.slots && Version(ops, s, id, db.slots[id], row))
    || exists t: nat, i: nat :: CutBy(ops, s, t, i, id, row)
  }

  ghost predicate SlotsAccounted(db: Db, ops: seq<Op>, s: State) {
    forall id :: id in s.db.slots ==> SlotAccounted(db, ops, s, id, s.db.slots[id])
  }

  ghost predicate Accounted(db: Db, ops: seq<Op>, s: State) {
    MeetingsAccounted(db, ops, s) && SlotsAccounted(db, ops, s)
  }

  /** Calls that have ended stay as they are. */
  predicate EndedStay(s: State, s': State) {
    |s.calls| == |s'.calls| && forall t :: 0 <= t < |s.calls| && s.calls[t].Ended? ==> s'.calls[t] == s.calls[t]
  }

  lemma VersionStays(ops: seq<Op>, s: State, s': State, id: Id, was: Slot, row: Slot)
    requires EndedStay(s, s') && Version(ops, s, id, was, row)
    ensures Version(ops, s', id, was, row)
  {
    if row != was {
      var t: nat :| RevisedBy(ops, s, t, id, was, row);
      assert RevisedBy(ops, s', t, id, was, row);
    }
  }

  lemma SlotStaysAccounted(db: Db, ops: seq<Op>, s: State, s': State, id: Id, row: Slot)
    requires EndedStay(s, s') && SlotAccounted(db, ops, s, id, row)
    ensures SlotAccounted(db, ops, s', id, row)
  {
    if id in db.slots && Version(ops, s, id, db.slots[id], row) {
      VersionStays(ops, s, s', id, db.slots[id], row);
    } else {
      var t: nat, i: nat :| CutBy(ops, s, t, i, id, row);
      VersionStays(ops, s, s', id, Offered(ops[t])[i].slot, row);
      assert CutBy(ops, s', t, i, id, row);
    }
  }

  lemma SlotsStayAccounted(db: Db, ops: seq<Op>, s: State, s': State)
    requires EndedStay(s, s') && SlotsAccounted(db, ops, s) && s'.db.slots == s.db.slots
    ensures SlotsAccounted(db, ops, s')
  {
    forall id | id in s'.db.slots ensures SlotAccounted(db, ops, s', id, s'.db.slots[id]) {
      SlotStaysAccounted(db, ops, s, s', id, s.db.slots[id]);
    }
  }

  lemma MeetingsStayAccounted(db: Db, ops: seq<Op>, s: State, s': State)
    requires EndedStay(s, s') && MeetingsAccounted(db, ops, s)
    requires forall m :: m in s'.db.meetings ==> m in s.db.meetings && s'.db.meetings[m] == s.db.meetings[m]
    ensures MeetingsAccounted(db, ops, s')
  {
    forall m | m in s'.db.meetings && !(m in db.meetings && db.meetings[m] == s'.db.meetings[m])
      ensures exists t: nat :: BookedBy(ops, s', t, m, s'.db.meetings[m])
    {
      var t: nat :| BookedBy(ops, s, t, m, s.db.meetings[m]);
      assert BookedBy(ops, s', t, m, s'.db.meetings[m]);
    }
  }

  lemma RevisedAgain(db: Db, ops: seq<Op>, s: State, s': State, t: nat, id: Id, row: Slot)
    requires EndedStay(s, s') && SlotAccounted(db, ops, s, id, row)
    requires t < |ops| && Succeeded(s', t, Rows(1)) && ops[t].Update? && ops[t].slotId == id
    ensures SlotAccounted(db, ops, s', id, Revised(row, ops[t]))
  {
    var next := Revised(row, ops[t]);
    if id in db.slots && Version(ops, s, id, db.slots[id], row) {
      assert RevisedBy(ops, s', t, id, db.slots[id], next);
    } else {
      var u: nat, i: nat :| CutBy(ops, s, u, i, id, row);
      assert RevisedBy(ops, s', t, id, Offered(ops[u])[i].slot, next);
      assert CutBy(ops, s', u, i, id, next);
    }
  }

  lemma AutocommitKeepsAccounted(db: Db, ops: seq<Op>, s: State, e: Event)
    requires Enabled(ops, s, e) && e.Statement? && !ops[e.call].Transactional() && Accounted(db, ops, s)
    ensures Accounted(db, ops, Next(ops, s, e))
  {
    var op, s' := ops[e.call], Next(ops, s, e);
    MeetingsStayAccounted(db, ops, s, s');
    forall id | id in s'.db.slots ensures SlotAccounted(db, ops, s', id, s'.db.slots[id]) {
      if op.Update? && op.slotId == id && Succeeded(s', e.call, Rows(1)) {
        RevisedAgain(db, ops, s, s', e.call, id, s.db.slots[id]);
      } else {
        SlotStaysAccounted(db, ops, s, s', id, s.db.slots[id]);
      }
    }
  }

  lemma NewMeetingAccounted(db: Db, ops: seq<Op>, s: State, s': State, t: nat)
    requires EndedStay(s, s') && MeetingsAccounted(db, ops, s)
    requires t < |ops| && ops[t].BookMeeting? && Succeeded(s', t, Done)
    requires s'.db.meetings == s.db.meetings[ops[t].meetingId := ops[t].meeting]
    ensures MeetingsAccounted(db, ops, s')
  {
    forall m | m in s'.db.meetings && !(m in db.meetings && db.meetings[m] == s'.db.meetings[m])
      ensures exists u: nat :: BookedBy(ops, s', u, m, s'.db.meetings[m])
    {
      if m == ops[t].meetingId {
        assert BookedBy(ops, s', t, m, s'.db.meetings[m]);
      } else {
        var u: nat :| BookedBy(ops, s, u, m, s.db.meetings[m]);
        assert BookedBy(ops, s', u, m, s'.db.meetings[m]);
      }
    }
  }

  lemma CommittedBookingAccounted(db: Db, ops: seq<Op>, s: State, t: nat)
    requires Enabled(ops, s, Commit(t)) && ops[t].BookMeeting? && CallOk(s.db, ops[t], s.calls[t])
    requires Accounted(db, ops, s)
    ensures Accounted(db, ops, Next(ops, s, Commit(t)))
  {
    var s' := Next(ops, s, Commit(t));
    CommittedBooking(s.db, ops[t], s.calls[t]);
    NewMeetingAccounted(db, ops, s, s', t);
    SlotsStayAccounted(db, ops, s, s');
  }

  lemma CommittedOfferAccounted(db: Db, ops: seq<Op>, s: State, t: nat)
    requires Enabled(ops, s, Commit(t)) && ops[t].CreateAvailability? && CallOk(s.db, ops[t], s.calls[t])
    requires Accounted(db, ops, s)
    ensures Accounted(db, ops, Next(ops, s, Commit(t)))
  {
    var s', rows := Next(ops, s, Commit(t)), Offered(ops[t]);
    CommittedOffer(s.db, ops[t], s.calls[t]);
    assert rows[..s.calls[t].pc] == rows;
    MeetingsStayAccounted(db, ops, s, s');
    forall id | id in s'.db.slots ensures SlotAccounted(db, ops, s', id, s'.db.slots[id]) {
      if id in RowMap(rows) {
        NewRowAccounted(db, ops, s', t, id);
      } else {
        SlotStaysAccounted(db, ops, s, s', id, s.db.slots[id]);
      }
    }
  }

  lemma NewRowAccounted(db: Db, ops: seq<Op>, s: State, t: nat, id: Id)
    requires t < |ops| && Succeeded(s, t, Done) && id in RowMap(Offered(ops[t]))
    requires forall i :: 0 <= i < |Offered(ops[t])| ==> Checks(Offered(ops[t])[i].slot)
    ensures SlotAccounted(db, ops, s, id, RowMap(Offered(ops[t]))[id])
  {
    var rows := Offered(ops[t]);
    RowMapKeys(rows);
    var i: nat :| i < |rows| && rows[i] == Row(id, RowMap(rows)[id]);
    assert CutBy(ops, s, t, i, id, RowMap(rows)[id]);
  }

  lemma StepKeepsAccounted(db: Db, ops: seq<Op>, s: State, e: Event)
    requires Enabled(ops, s, e) && CallOk(s.db, ops[e.call], s.calls[e.call]) && Accounted(db, ops, s)
    ensures Accounted(db, ops, Next(ops, s, e))
  {
    var op := ops[e.call];
    if e.Commit? {
      if op.BookMeeting? {
        CommittedBookingAccounted(db, ops, s, e.call);
      } else {
        CommittedOfferAccounted(db, ops, s, e.call);
      }
    } else if e.Statement? && !op.Transactional() {
      AutocommitKeepsAccounted(db, ops, s, e);
    } else {
      UncommittedStepKeepsAccounted(db, ops, s, e);
    }
  }

  lemma UncommittedStepKeepsAccounted(db: Db, ops: seq<Op>, s: State, e: Event)
    requires Enabled(ops, s, e) && !e.Commit? && (e.Statement? ==> ops[e.call].Transactional())
    requires Accounted(db, ops, s)
    ensures Accounted(db, ops, Next(ops, s, e))
  {
    var s' := Next(ops, s, e);
    MeetingsStayAccounted(db, ops, s, s');
    SlotsStayAccounted(db, ops, s, s');
  }

  /** In every reachable state, under any guards, every meeting was there at the start or is that
      of a booking that succeeded, and every slot is one from the start or a row cut by an offer
      that succeeded, as it was or as a successful update has made it. */
  lemma {:induction false} RowsAreAccounted(ops: seq<Op>, db: Db, run: seq<Event>)
    requires Valid(db) && FreshIds(db, ops) && Legal(ops, Initial(db, ops), run)
    ensures Accounted(db, ops, After(ops, Initial(db, ops), run))
  {
    if run != [] {
      var front := run[..|run| - 1];
      RowsAreAccounted(ops, db, front);
      ReachableInv(ops, db, front);
      var s, e := After(ops, Initial(db, ops), front), run[|run| - 1];
      assert CallOk(s.db, ops[e.call], s.calls[e.call]);
      StepKeepsAccounted(db, ops, s, e);
    }
  }

  // ---- Participants ----

  function InvitesOf(db: Db, m: Id): set<Participant> {
    set p | p in db.participants && p.meetingId == m
  }

  /** The meeting is one from the start with the participants it had, or that of a booking that
      succeeded with exactly the invitations of that booking. */
  ghost predicate InvitesAccounted(db: Db, ops: seq<Op>, s: State, m: Id)
    requires m in s.db.meetings
  {
    || (m in db.meetings && db.meetings[m] == s.db.meetings[m] && InvitesOf(s.db, m) == InvitesOf(db, m))
    || exists t: nat ::
         BookedBy(ops, s, t, m, s.db.meetings[m]) && InvitesOf(s.db, m) == Invitations(m, ops[t].attendees)
  }

  lemma InvitesStayAccounted(db: Db, ops: seq<Op>, s: State, s': State, m: Id)
    requires EndedStay(s, s') && m in s.db.meetings && m in s'.db.meetings && InvitesAccounted(db, ops, s, m)
    requires s'.db.meetings[m] == s.db.meetings[m] && InvitesOf(s'.db, m) == InvitesOf(s.db, m)
    ensures InvitesAccounted(db, ops, s', m)
  {
    if t: nat :| BookedBy(ops, s, t, m, s.db.meetings[m]) && InvitesOf(s.db, m) == Invitations(m, ops[t].attendees) {
      assert BookedBy(ops, s', t, m, s'.db.meetings[m]);
    }
  }

  lemma BookingStepInvites(db: Db, ops: seq<Op>, s: State, t: nat, m: Id)
    requires Valid(s.db) && Enabled(ops, s, Commit(t)) && ops[t].BookMeeting? && CallOk(s.db, ops[t], s.calls[t])
    requires m in s.db.meetings ==> InvitesAccounted(db, ops, s, m)
    requires m in Next(ops, s, Commit(t)).db.meetings
    ensures InvitesAccounted(db, ops, Next(ops, s, Commit(t)), m)
  {
    var s' := Next(ops, s, Commit(t));
    CommittedBooking(s.db, ops[t], s.calls[t]);
    if m == ops[t].meetingId {
      assert InvitesOf(s.db, m) == {};
      assert InvitesOf(s'.db, m) == Invitations(m, ops[t].attendees);
      assert BookedBy(ops, s', t, m, s'.db.meetings[m]);
    } else {
      assert InvitesOf(s'.db, m) == InvitesOf(s.db, m);
      InvitesStayAccounted(db, ops, s, s', m);
    }
  }

  lemma OtherStepInvites(ops: seq<Op>, s: State, e: Event, m: Id)
    requires Enabled(ops, s, e) && CallOk(s.db, ops[e.call], s.calls[e.call])
    requires !(e.Commit? && ops[e.call].BookMeeting?)
    requires m in Next(ops, s, e).db.meetings
    ensures var s' := Next(ops, s, e);
            && EndedStay(s, s') && m in s.db.meetings && s'.db.meetings[m] == s.db.meetings[m]
            && InvitesOf(s'.db, m) == InvitesOf(s.db, m)
  {
    if e.Commit? { CommittedOffer(s.db, ops[e.call], s.calls[e.call]); }
  }

  /** In every reachable state, under any guards, the participants of a meeting are those it had at
      the start, or exactly the invitations of the booking that made it. */
  lemma {:induction false} InvitesAreAccounted(ops: seq<Op>, db: Db, run: seq<Event>, m: Id)
    requires Valid(db) && FreshIds(db, ops) && Legal(ops, Initial(db, ops), run)
    requires m in After(ops, Initial(db, ops), run).db.meetings
    ensures InvitesAccounted(db, ops, After(ops, Initial(db, ops), run), m)
  {
    if run != [] {
      var front, e := run[..|run| - 1], run[|run| - 1];
      var s := After(ops, Initial(db, ops), front);
      ReachableInv(ops, db, front);
      assert CallOk(s.db, ops[e.call], s.calls[e.call]);
      if m in s.db.meetings { InvitesAreAccounted(ops, db, front, m); }
      if e.Commit? && ops[e.call].BookMeeting? {
        BookingStepInvites(db, ops, s, e.call, m);
      } else {
        OtherStepInvites(ops, s, e, m);
        InvitesStayAccounted(db, ops, s, Next(ops, s, e), m);
      }
    }
  }
}
