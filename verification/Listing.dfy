/** The two list queries as relational pipelines over tables stored in any physical order, and
    the direct descriptions they meet (ListCalendarMeetings and ListAllottedTimeslots). */
module Listing {
  import opened Schema
  import opened Transactions

  datatype Option<+T> = None | Some(value: T)

  datatype SlotRow = SlotRow(id: Id, slot: Slot)

  datatype MeetingRow = MeetingRow(id: Id, meeting: Meeting)

  ghost predicate Distinct<T>(rows: seq<T>) {
    forall i, j :: 0 <= i < j < |rows| ==> rows[i] != rows[j]
  }

  /** The sequences hold the rows of the tables, each once, in some order. */
  ghost predicate StoresSlots(db: Db, ts: seq<SlotRow>) {
    && (forall i, j :: 0 <= i < j < |ts| ==> ts[i].id != ts[j].id)
    && (forall i :: 0 <= i < |ts| ==> ts[i].id in db.slots && db.slots[ts[i].id] == ts[i].slot)
    && (forall id :: id in db.slots ==> SlotRow(id, db.slots[id]) in ts)
  }

  ghost predicate StoresMeetings(db: Db, ms: seq<MeetingRow>) {
    && (forall i, j :: 0 <= i < j < |ms| ==> ms[i].id != ms[j].id)
    && (forall i :: 0 <= i < |ms| ==> ms[i].id in db.meetings && db.meetings[ms[i].id] == ms[i].meeting)
    && (forall id :: id in db.meetings ==> MeetingRow(id, db.meetings[id]) in ms)
  }

  ghost predicate StoresParticipants(db: Db, ps: seq<Participant>) {
    Distinct(ps) && forall p :: p in ps <==> p in db.participants
  }

  // ---- ORDER BY ----

  function InsertBy<T>(r: T, rows: seq<T>, key: T -> int): seq<T> {
    if rows == [] || key(rows[|rows| - 1]) <= key(r) then rows + [r]
    else InsertBy(r, rows[..|rows| - 1], key) + [rows[|rows| - 1]]
  }

  function OrderBy<T>(rows: seq<T>, key: T -> int): seq<T> {
    if rows == [] then [] else InsertBy(rows[|rows| - 1], OrderBy(rows[..|rows| - 1], key), key)
  }

  ghost predicate SortedBy<T>(rows: seq<T>, key: T -> int) {
    forall i, j :: 0 <= i < j < |rows| ==> key(rows[i]) <= key(rows[j])
  }

  ghost predicate AtMost<T>(rows: seq<T>, key: T -> int, bound: int) {
    forall i :: 0 <= i < |rows| ==> key(rows[i]) <= bound
  }

  lemma {:induction false} InsertByBound<T>(r: T, rows: seq<T>, key: T -> int, bound: int)
    requires AtMost(rows, key, bound) && key(r) <= bound
    ensures AtMost(InsertBy(r, rows, key), key, bound)
  {
    if rows != [] && key(rows[|rows| - 1]) > key(r) {
      InsertByBound(r, rows[..|rows| - 1], key, bound);
    }
  }

  lemma {:induction false} InsertByProperties<T>(r: T, rows: seq<T>, key: T -> int)
    requires SortedBy(rows, key)
    ensures SortedBy(InsertBy(r, rows, key), key)
  {
    if rows != [] && key(rows[|rows| - 1]) > key(r) {
      var front, last := rows[..|rows| - 1], rows[|rows| - 1];
      InsertByProperties(r, front, key);
      InsertByBound(r, front, key, key(last));
      SortedAppend(InsertBy(r, front, key), last, key);
    } else if rows != [] {
      SortedAppend(rows, r, key);
    }
  }

  lemma SortedAppend<T>(rows: seq<T>, r: T, key: T -> int)
    requires SortedBy(rows, key) && AtMost(rows, key, key(r))
    ensures SortedBy(rows + [r], key)
  {
  }

  lemma {:induction false} InsertByMultiset<T>(r: T, rows: seq<T>, key: T -> int)
    ensures multiset(InsertBy(r, rows, key)) == multiset(rows) + multiset{r}
  {
    if rows != [] {
      assert rows == rows[..|rows| - 1] + [rows[|rows| - 1]];
      InsertByMultiset(r, rows[..|rows| - 1], key);
    }
  }

  lemma {:induction false} OrderByProperties<T>(rows: seq<T>, key: T -> int)
    ensures SortedBy(OrderBy(rows, key), key)
    ensures multiset(OrderBy(rows, key)) == multiset(rows)
  {
    if rows != [] {
      var front, last := rows[..|rows| - 1], rows[|rows| - 1];
      assert rows == front + [last];
      OrderByProperties(front, key);
      InsertByProperties(last, OrderBy(front, key), key);
      InsertByMultiset(last, OrderBy(front, key), key);
    }
  }

  lemma {:induction false} DistinctIsUnique<T>(rows: seq<T>)
    ensures Distinct(rows) <==> forall r :: multiset(rows)[r] <= 1
  {
    if rows != [] {
      var front, last := rows[..|rows| - 1], rows[|rows| - 1];
      assert rows == front + [last];
      DistinctIsUnique(front);
      assert forall r :: multiset(rows)[r] == multiset(front)[r] + if r == last then 1 else 0;
      if Distinct(rows) {
        assert Distinct(front);
        assert last !in front;
        assert multiset(front)[last] == 0;
      } else if Distinct(front) {
        var i, j :| 0 <= i < j < |rows| && rows[i] == rows[j];
        assert j == |rows| - 1 && front[i] == last;
        assert multiset(front)[last] >= 1;
        assert multiset(rows)[last] > 1;
      }
    }
  }

  lemma OrderByKeeps<T>(rows: seq<T>, key: T -> int)
    ensures forall r :: r in OrderBy(rows, key) <==> r in rows
    ensures Distinct(rows) ==> Distinct(OrderBy(rows, key))
  {
    OrderByProperties(rows, key);
    DistinctIsUnique(rows);
    DistinctIsUnique(OrderBy(rows, key));
    forall r ensures r in OrderBy(rows, key) <==> r in rows {
      assert r in multiset(OrderBy(rows, key)) <==> r in multiset(rows);
    }
  }

  // ---- ListCalendarMeetings ----

  datatype Joined = Joined(meetingId: Id, meeting: Meeting, slot: Slot)

  datatype LeftRow = LeftRow(row: Joined, email: Option<string>)

  datatype GroupKey = GroupKey(meetingId: Id, title: string, startAt: int, endAt: int)

  datatype CalendarRow = CalendarRow(meetingId: Id, title: string, startAt: int, endAt: int, attendees: seq<string>)

  /** INNER JOIN ... ON t.timeslot_id = m.timeslot_id WHERE t.user_id = $1, for one meeting. */
  function MatchSlots(m: MeetingRow, ts: seq<SlotRow>, userId: Id): seq<Joined> {
    if ts == [] then []
    else
      var t := ts[|ts| - 1];
      MatchSlots(m, ts[..|ts| - 1], userId)
      + if t.id == m.meeting.timeslotId && t.slot.userId == userId then [Joined(m.id, m.meeting, t.slot)] else []
  }

  function InnerJoin(ms: seq<MeetingRow>, ts: seq<SlotRow>, userId: Id): seq<Joined> {
    if ms == [] then [] else InnerJoin(ms[..|ms| - 1], ts, userId) + MatchSlots(ms[|ms| - 1], ts, userId)
  }

  function MatchEmails(meetingId: Id, ps: seq<Participant>): seq<string> {
    if ps == [] then []
    else
      var p := ps[|ps| - 1];
      MatchEmails(meetingId, ps[..|ps| - 1]) + if p.meetingId == meetingId then [p.email] else []
  }

  function WithEmails(row: Joined, emails: seq<string>): seq<LeftRow> {
    if emails == [] then []
    else WithEmails(row, emails[..|emails| - 1]) + [LeftRow(row, Some(emails[|emails| - 1]))]
  }

  /** The rows one joined row gives rise to: one per participant, or one with a NULL email. */
  function Spread(row: Joined, ps: seq<Participant>): seq<LeftRow> {
    var emails := MatchEmails(row.meetingId, ps);
    if emails == [] then [LeftRow(row, None)] else WithEmails(row, emails)
  }

  function LeftJoin(rows: seq<Joined>, ps: seq<Participant>): seq<LeftRow> {
    if rows == [] then [] else LeftJoin(rows[..|rows| - 1], ps) + Spread(rows[|rows| - 1], ps)
  }

  function KeyOf(row: Joined): GroupKey {
    GroupKey(row.meetingId, row.meeting.title, row.slot.startAt, row.slot.endAt)
  }

  /** The groups of GROUP BY, in order of first appearance. */
  function Groups(rows: seq<LeftRow>): seq<GroupKey> {
    if rows == [] then []
    else
      var earlier, key := Groups(rows[..|rows| - 1]), KeyOf(rows[|rows| - 1].row);
      if key in earlier then earlier else earlier + [key]
  }

  /** array_agg(p.attendee_email) FILTER (WHERE p.attendee_email IS NOT NULL): NULL when nothing
      passes the filter. */
  function Aggregated(rows: seq<LeftRow>, key: GroupKey): Option<seq<string>> {
    if rows == [] then None
    else
      var earlier, r := Aggregated(rows[..|rows| - 1], key), rows[|rows| - 1];
      if KeyOf(r.row) == key && r.email.Some? then Some(Coalesce(earlier) + [r.email.value]) else earlier
  }

  function Coalesce(emails: Option<seq<string>>): seq<string> {
    if emails.None? then [] else emails.value
  }

  function Grouped(rows: seq<LeftRow>): seq<CalendarRow> {
    var keys := Groups(rows);
    seq(|keys|, i requires 0 <= i < |keys| =>
      CalendarRow(keys[i].meetingId, keys[i].title, keys[i].startAt, keys[i].endAt,
                  Coalesce(Aggregated(rows, keys[i]))))
  }

  function ListCalendarMeetings(ms: seq<MeetingRow>, ts: seq<SlotRow>, ps: seq<Participant>, userId: Id)
    : seq<CalendarRow>
  {
    OrderBy(Grouped(LeftJoin(InnerJoin(ms, ts, userId), ps)), (r: CalendarRow) => r.startAt)
  }

  // The direct description

  datatype CalendarEntry = CalendarEntry(title: string, startAt: int, endAt: int, attendees: set<string>)

  predicate OnCalendar(db: Db, userId: Id, m: Id) {
    m in db.meetings && db.meetings[m].timeslotId in db.slots && db.slots[db.meetings[m].timeslotId].userId == userId
  }

  function Attending(db: Db, m: Id): set<string> {
    set p | p in db.participants && p.meetingId == m :: p.email
  }

  /** The meetings on the user's slots with their attendees. */
  function CalendarView(db: Db, userId: Id): map<Id, CalendarEntry> {
    map m | m in db.meetings && OnCalendar(db, userId, m) ::
      var slot := db.slots[db.meetings[m].timeslotId];
      CalendarEntry(db.meetings[m].title, slot.startAt, slot.endAt, Attending(db, m))
  }

  function Members(attendees: seq<string>): set<string> {
    set e | e in attendees
  }

  function EntryOf(r: CalendarRow): CalendarEntry {
    CalendarEntry(r.title, r.startAt, r.endAt, Members(r.attendees))
  }

  ghost predicate RowOfView(r: CalendarRow, view: map<Id, CalendarEntry>) {
    r.meetingId in view && view[r.meetingId] == EntryOf(r) && Distinct(r.attendees)
  }

  /** The list shows the view: one row per meeting, no attendee twice. */
  ghost predicate ShowsUnordered(rows: seq<CalendarRow>, view: map<Id, CalendarEntry>) {
    && (forall i, j :: 0 <= i < j < |rows| ==> rows[i].meetingId != rows[j].meetingId)
    && (forall i :: 0 <= i < |rows| ==> RowOfView(rows[i], view))
    && (forall m :: m in view ==> exists i :: 0 <= i < |rows| && rows[i].meetingId == m)
  }

  /** ... in the order of the start times. */
  ghost predicate Shows(rows: seq<CalendarRow>, view: map<Id, CalendarEntry>) {
    SortedBy(rows, (r: CalendarRow) => r.startAt) && ShowsUnordered(rows, view)
  }

  // The join

  lemma {:induction false} MatchSlotsIsLookup(m: MeetingRow, ts: seq<SlotRow>, userId: Id)
    requires forall i, j :: 0 <= i < j < |ts| ==> ts[i].id != ts[j].id
    ensures (forall i :: 0 <= i < |ts| && ts[i].id == m.meeting.timeslotId ==>
               MatchSlots(m, ts, userId) ==
                 if ts[i].slot.userId == userId then [Joined(m.id, m.meeting, ts[i].slot)] else [])
    ensures (forall i :: 0 <= i < |ts| ==> ts[i].id != m.meeting.timeslotId) ==> MatchSlots(m, ts, userId) == []
  {
    if ts != [] {
      MatchSlotsIsLookup(m, ts[..|ts| - 1], userId);
    }
  }

  lemma MatchSlotsInDb(db: Db, m: MeetingRow, ts: seq<SlotRow>, userId: Id)
    requires StoresSlots(db, ts) && m.id in db.meetings && db.meetings[m.id] == m.meeting
    ensures MatchSlots(m, ts, userId) ==
            if OnCalendar(db, userId, m.id) then [Joined(m.id, m.meeting, db.slots[m.meeting.timeslotId])] else []
  {
    MatchSlotsIsLookup(m, ts, userId);
    if m.meeting.timeslotId in db.slots {
      var i :| 0 <= i < |ts| && ts[i] == SlotRow(m.meeting.timeslotId, db.slots[m.meeting.timeslotId]);
    }
  }

  /** The joined rows are the meetings on the user's slots, each once. */
  ghost predicate JoinsMeetings(db: Db, ms: seq<MeetingRow>, userId: Id, rows: seq<Joined>) {
    && (forall i, j :: 0 <= i < j < |rows| ==> rows[i].meetingId != rows[j].meetingId)
    && (forall i :: 0 <= i < |rows| ==>
          IsJoined(db, userId, rows[i]) && MeetingRow(rows[i].meetingId, rows[i].meeting) in ms)
    && (forall m :: m in ms && OnCalendar(db, userId, m.id) ==>
          exists j :: 0 <= j < |rows| && rows[j].meetingId == m.id)
  }

  lemma {:induction false} InnerJoinIsLookup(db: Db, ms: seq<MeetingRow>, ts: seq<SlotRow>, userId: Id)
    requires StoresSlots(db, ts)
    requires forall i, j :: 0 <= i < j < |ms| ==> ms[i].id != ms[j].id
    requires forall i :: 0 <= i < |ms| ==> ms[i].id in db.meetings && db.meetings[ms[i].id] == ms[i].meeting
    ensures JoinsMeetings(db, ms, userId, InnerJoin(ms, ts, userId))
  {
    if ms != [] {
      var front, m := ms[..|ms| - 1], ms[|ms| - 1];
      assert ms == front + [m];
      InnerJoinIsLookup(db, front, ts, userId);
      MatchSlotsInDb(db, m, ts, userId);
      JoinsOneMore(db, front, m, userId, InnerJoin(front, ts, userId), MatchSlots(m, ts, userId));
    }
  }

  lemma JoinsOneMore(db: Db, front: seq<MeetingRow>, m: MeetingRow, userId: Id, before: seq<Joined>, more: seq<Joined>)
    requires JoinsMeetings(db, front, userId, before) && m.id in db.meetings && db.meetings[m.id] == m.meeting
    requires forall i :: 0 <= i < |front| ==> front[i].id != m.id
    requires more ==
             if OnCalendar(db, userId, m.id) then [Joined(m.id, m.meeting, db.slots[m.meeting.timeslotId])] else []
    ensures JoinsMeetings(db, front + [m], userId, before + more)
  {
    var rows := before + more;
    forall i | 0 <= i < |before|
      ensures before[i].meetingId != m.id && MeetingRow(before[i].meetingId, before[i].meeting) in front + [m]
    {
      assert MeetingRow(before[i].meetingId, before[i].meeting) in front;
    }
    forall n | n in front + [m] && OnCalendar(db, userId, n.id)
      ensures exists j :: 0 <= j < |rows| && rows[j].meetingId == n.id
    {
      if n in front {
        var j :| 0 <= j < |before| && before[j].meetingId == n.id;
        assert rows[j] == before[j];
      } else {
        assert rows[|before|].meetingId == n.id;
      }
    }
  }

  predicate IsJoined(db: Db, userId: Id, row: Joined) {
    && OnCalendar(db, userId, row.meetingId)
    && var meeting := db.meetings[row.meetingId];
       row == Joined(row.meetingId, meeting, db.slots[meeting.timeslotId])
  }

  // The grouping

  function KeysOf(rows: seq<Joined>): seq<GroupKey> {
    if rows == [] then [] else KeysOf(rows[..|rows| - 1]) + [KeyOf(rows[|rows| - 1])]
  }

  lemma {:induction false} KeysOfAt(rows: seq<Joined>)
    ensures |KeysOf(rows)| == |rows| && forall i :: 0 <= i < |rows| ==> KeysOf(rows)[i] == KeyOf(rows[i])
  {
    if rows != [] { KeysOfAt(rows[..|rows| - 1]); }
  }

  ghost predicate OneKey(rows: seq<LeftRow>, key: GroupKey) {
    forall i :: 0 <= i < |rows| ==> KeyOf(rows[i].row) == key
  }

  lemma {:induction false} WithEmailsHasOneKey(row: Joined, emails: seq<string>)
    ensures OneKey(WithEmails(row, emails), KeyOf(row)) && |WithEmails(row, emails)| == |emails|
  {
    if emails != [] { WithEmailsHasOneKey(row, emails[..|emails| - 1]); }
  }

  lemma {:induction false} GroupsAppend(before: seq<LeftRow>, more: seq<LeftRow>, key: GroupKey)
    requires OneKey(more, key) && key !in Groups(before) && more != []
    ensures Groups(before + more) == Groups(before) + [key]
  {
    var front := more[..|more| - 1];
    assert (before + more)[..|before + more| - 1] == before + front;
    if front == [] {
      assert before + front == before;
    } else {
      GroupsAppend(before, front, key);
    }
  }

  lemma {:induction false} GroupsOfLeftJoin(rows: seq<Joined>, ps: seq<Participant>)
    requires forall i, j :: 0 <= i < j < |rows| ==> rows[i].meetingId != rows[j].meetingId
    ensures Groups(LeftJoin(rows, ps)) == KeysOf(rows)
  {
    if rows != [] {
      var front, row := rows[..|rows| - 1], rows[|rows| - 1];
      GroupsOfLeftJoin(front, ps);
      WithEmailsHasOneKey(row, MatchEmails(row.meetingId, ps));
      KeysOfAt(front);
      forall i | 0 <= i < |front| ensures KeysOf(front)[i] != KeyOf(row) {
        assert front[i] == rows[i];
      }
      GroupsAppend(LeftJoin(front, ps), Spread(row, ps), KeyOf(row));
    }
  }

  lemma {:induction false} AggregatedElsewhere(before: seq<LeftRow>, more: seq<LeftRow>, key: GroupKey, other: GroupKey)
    requires OneKey(more, other) && key != other
    ensures Aggregated(before + more, key) == Aggregated(before, key)
  {
    if more == [] {
      assert before + more == before;
    } else {
      AggregatedElsewhere(before, more[..|more| - 1], key, other);
      assert (before + more)[..|before + more| - 1] == before + more[..|more| - 1];
    }
  }

  lemma {:induction false} AggregatedHere(before: seq<LeftRow>, row: Joined, emails: seq<string>)
    requires Aggregated(before, KeyOf(row)).None?
    ensures Coalesce(Aggregated(before + WithEmails(row, emails), KeyOf(row))) == emails
  {
    if emails == [] {
      assert before + [] == before;
    } else {
      var front, email := emails[..|emails| - 1], emails[|emails| - 1];
      AggregatedHere(before, row, front);
      assert before + WithEmails(row, emails) == (before + WithEmails(row, front)) + [LeftRow(row, Some(email))];
      AggregatedAppend(before + WithEmails(row, front), row, email);
      assert emails == front + [email];
    }
  }

  lemma AggregatedAppend(rows: seq<LeftRow>, row: Joined, email: string)
    ensures Aggregated(rows + [LeftRow(row, Some(email))], KeyOf(row))
         == Some(Coalesce(Aggregated(rows, KeyOf(row))) + [email])
  {
  }

  lemma AggregatedSpread(before: seq<LeftRow>, row: Joined, ps: seq<Participant>, key: GroupKey)
    ensures key != KeyOf(row) ==> Aggregated(before + Spread(row, ps), key) == Aggregated(before, key)
    ensures key == KeyOf(row) && Aggregated(before, key).None? ==>
              Coalesce(Aggregated(before + Spread(row, ps), key)) == MatchEmails(row.meetingId, ps)
  {
    WithEmailsHasOneKey(row, MatchEmails(row.meetingId, ps));
    if key != KeyOf(row) {
      AggregatedElsewhere(before, Spread(row, ps), key, KeyOf(row));
    } else if Aggregated(before, key).None? {
      AggregatedHere(before, row, MatchEmails(row.meetingId, ps));
      assert (before + [LeftRow(row, None)])[..|before|] == before;
    }
  }

  lemma {:induction false} AggregateOfLeftJoin(rows: seq<Joined>, ps: seq<Participant>, key: GroupKey)
    requires forall i, j :: 0 <= i < j < |rows| ==> rows[i].meetingId != rows[j].meetingId
    ensures forall i :: 0 <= i < |rows| && KeyOf(rows[i]) == key ==>
              Coalesce(Aggregated(LeftJoin(rows, ps), key)) == MatchEmails(rows[i].meetingId, ps)
    ensures (forall i :: 0 <= i < |rows| ==> KeyOf(rows[i]) != key) ==> Aggregated(LeftJoin(rows, ps), key).None?
  {
    if rows != [] {
      var front, row := rows[..|rows| - 1], rows[|rows| - 1];
      AggregateOfLeftJoin(front, ps, key);
      AggregatedSpread(LeftJoin(front, ps), row, ps, key);
      assert forall i :: 0 <= i < |front| ==> front[i] == rows[i] && KeyOf(front[i]) != KeyOf(row);
      forall i | 0 <= i < |rows| && KeyOf(rows[i]) == key
        ensures Coalesce(Aggregated(LeftJoin(rows, ps), key)) == MatchEmails(rows[i].meetingId, ps)
      {
        if i < |front| { assert KeyOf(front[i]) == key; }
      }
    }
  }

  /** Grouping the left join undoes its spreading: one row per joined row, with that meeting's
      emails; a meeting without participants keeps its row and gets an empty list. */
  lemma GroupingUndoesLeftJoin(rows: seq<Joined>, ps: seq<Participant>, i: nat)
    requires forall i, j :: 0 <= i < j < |rows| ==> rows[i].meetingId != rows[j].meetingId
    requires i < |rows|
    ensures var grouped := Grouped(LeftJoin(rows, ps));
            && |grouped| == |rows|
            && var row := rows[i];
               grouped[i] == CalendarRow(row.meetingId, row.meeting.title, row.slot.startAt, row.slot.endAt,
                                         MatchEmails(row.meetingId, ps))
  {
    GroupsOfLeftJoin(rows, ps);
    KeysOfAt(rows);
    AggregateOfLeftJoin(rows, ps, KeyOf(rows[i]));
  }

  // The theorem

  lemma {:induction false} MatchEmailsIsLookup(db: Db, ps: seq<Participant>, m: Id)
    requires Distinct(ps)
    ensures Distinct(MatchEmails(m, ps))
    ensures forall e :: e in MatchEmails(m, ps) <==> Participant(m, e) in ps
  {
    if ps != [] {
      var front, p := ps[..|ps| - 1], ps[|ps| - 1];
      assert ps == front + [p];
      MatchEmailsIsLookup(db, front, m);
      assert p !in front;
    }
  }

  lemma AttendeesInDb(db: Db, ps: seq<Participant>, m: Id)
    requires StoresParticipants(db, ps)
    ensures Distinct(MatchEmails(m, ps)) && Members(MatchEmails(m, ps)) == Attending(db, m)
  {
    MatchEmailsIsLookup(db, ps, m);
    forall e ensures e in Members(MatchEmails(m, ps)) <==> e in Attending(db, m) {
      assert e in Members(MatchEmails(m, ps)) <==> Participant(m, e) in db.participants;
      if Participant(m, e) in db.participants { assert Participant(m, e).email in Attending(db, m); }
    }
  }

  lemma GroupedRowOfView(db: Db, joined: seq<Joined>, ps: seq<Participant>, userId: Id, i: nat)
    requires StoresParticipants(db, ps) && i < |joined| && IsJoined(db, userId, joined[i])
    requires forall i, j :: 0 <= i < j < |joined| ==> joined[i].meetingId != joined[j].meetingId
    ensures var rows := Grouped(LeftJoin(joined, ps));
            && |rows| == |joined| && rows[i].meetingId == joined[i].meetingId
            && RowOfView(rows[i], CalendarView(db, userId))
  {
    GroupingUndoesLeftJoin(joined, ps, i);
    AttendeesInDb(db, ps, joined[i].meetingId);
  }

  lemma JoinedCoversView(db: Db, ms: seq<MeetingRow>, userId: Id, joined: seq<Joined>, m: Id)
    requires StoresMeetings(db, ms) && JoinsMeetings(db, ms, userId, joined) && m in CalendarView(db, userId)
    ensures exists j :: 0 <= j < |joined| && joined[j].meetingId == m
  {
  }

  /** Before sorting, the rows are those of the view, each once. */
  lemma GroupedShowsView(db: Db, ms: seq<MeetingRow>, ts: seq<SlotRow>, ps: seq<Participant>, userId: Id)
    requires StoresMeetings(db, ms) && StoresSlots(db, ts) && StoresParticipants(db, ps)
    ensures ShowsUnordered(Grouped(LeftJoin(InnerJoin(ms, ts, userId), ps)), CalendarView(db, userId))
  {
    InnerJoinIsLookup(db, ms, ts, userId);
    JoinedShowsView(db, ms, ps, userId, InnerJoin(ms, ts, userId));
  }

  lemma JoinedShowsView(db: Db, ms: seq<MeetingRow>, ps: seq<Participant>, userId: Id, joined: seq<Joined>)
    requires StoresMeetings(db, ms) && StoresParticipants(db, ps) && JoinsMeetings(db, ms, userId, joined)
    ensures ShowsUnordered(Grouped(LeftJoin(joined, ps)), CalendarView(db, userId))
  {
    var rows, view := Grouped(LeftJoin(joined, ps)), CalendarView(db, userId);
    GroupsOfLeftJoin(joined, ps);
    KeysOfAt(joined);
    forall i | 0 <= i < |joined| ensures rows[i].meetingId == joined[i].meetingId && RowOfView(rows[i], view) {
      GroupedRowOfView(db, joined, ps, userId, i);
    }
    forall m | m in view ensures exists j :: 0 <= j < |joined| && joined[j].meetingId == m {
      JoinedCoversView(db, ms, userId, joined, m);
    }
    RowsFollowJoin(joined, rows, view);
  }

  lemma RowsFollowJoin(joined: seq<Joined>, rows: seq<CalendarRow>, view: map<Id, CalendarEntry>)
    requires |rows| == |joined|
    requires forall i :: 0 <= i < |joined| ==> rows[i].meetingId == joined[i].meetingId && RowOfView(rows[i], view)
    requires forall i, j :: 0 <= i < j < |joined| ==> joined[i].meetingId != joined[j].meetingId
    requires forall m :: m in view ==> exists j :: 0 <= j < |joined| && joined[j].meetingId == m
    ensures ShowsUnordered(rows, view)
  {
  }

  /** The list query answers with the user's calendar, for every physical order of the tables. */
  lemma CalendarIsCorrect(db: Db, ms: seq<MeetingRow>, ts: seq<SlotRow>, ps: seq<Participant>, userId: Id)
    requires StoresMeetings(db, ms) && StoresSlots(db, ts) && StoresParticipants(db, ps)
    ensures Shows(ListCalendarMeetings(ms, ts, ps, userId), CalendarView(db, userId))
    ensures var rows := ListCalendarMeetings(ms, ts, ps, userId);
            forall i, j :: 0 <= i < j < |rows| ==> rows[i].startAt <= rows[j].startAt
  {
    var rows, key := Grouped(LeftJoin(InnerJoin(ms, ts, userId), ps)), (r: CalendarRow) => r.startAt;
    GroupedShowsView(db, ms, ts, ps, userId);
    OrderByProperties(rows, key);
    OrderByKeeps(rows, key);
    assert Distinct(rows);
    SortingKeepsShown(rows, OrderBy(rows, key), CalendarView(db, userId));
  }

  lemma SortingKeepsShown(rows: seq<CalendarRow>, sorted: seq<CalendarRow>, view: map<Id, CalendarEntry>)
    requires ShowsUnordered(rows, view) && Distinct(sorted) && forall r :: r in sorted <==> r in rows
    ensures ShowsUnordered(sorted, view)
  {
    forall i, j | 0 <= i < j < |sorted| ensures sorted[i].meetingId != sorted[j].meetingId {
      assert sorted[i] in rows && sorted[j] in rows;
    }
    forall i | 0 <= i < |sorted| ensures RowOfView(sorted[i], view) {
      assert sorted[i] in rows;
    }
    forall m | m in view ensures exists i :: 0 <= i < |sorted| && sorted[i].meetingId == m {
      var k :| 0 <= k < |rows| && rows[k].meetingId == m;
      assert rows[k] in sorted;
    }
  }

  // ---- ListAllottedTimeslots ----

  datatype AllottedRow = AllottedRow(id: Id, startAt: int, endAt: int, durationMins: int, isBooked: bool)

  /** EXISTS (SELECT 1 FROM meetings m WHERE m.timeslot_id = t.timeslot_id) */
  predicate ExistsMeeting(ms: seq<MeetingRow>, slotId: Id) {
    exists i :: 0 <= i < |ms| && ms[i].meeting.timeslotId == slotId
  }

  function SelectAllotted(ts: seq<SlotRow>, ms: seq<MeetingRow>, userId: Id, dateStart: int, dateEnd: int, now: int)
    : seq<AllottedRow>
  {
    if ts == [] then []
    else
      var t := ts[|ts| - 1];
      SelectAllotted(ts[..|ts| - 1], ms, userId, dateStart, dateEnd, now)
      + if t.slot.userId == userId && t.slot.startAt >= dateStart && t.slot.startAt < dateEnd && t.slot.startAt >= now
        then [AllottedRow(t.id, t.slot.startAt, t.slot.endAt, t.slot.durationMins, ExistsMeeting(ms, t.id))] else []
  }

  function ListAllottedTimeslots(ts: seq<SlotRow>, ms: seq<MeetingRow>, userId: Id, dateStart: int, dateEnd: int,
                                 now: int): seq<AllottedRow>
  {
    OrderBy(SelectAllotted(ts, ms, userId, dateStart, dateEnd, now), (r: AllottedRow) => r.startAt)
  }

  function Max(a: int, b: int): int { if a < b then b else a }

  /** The slot is the user's and starts inside the window, not before now. */
  predicate Listed(db: Db, userId: Id, dateStart: int, dateEnd: int, now: int, id: Id) {
    id in db.slots && db.slots[id].userId == userId && Max(dateStart, now) <= db.slots[id].startAt < dateEnd
  }

  function AllottedRowOf(db: Db, id: Id): AllottedRow
    requires id in db.slots
  {
    AllottedRow(id, db.slots[id].startAt, db.slots[id].endAt, db.slots[id].durationMins, id in Booked(db))
  }

  /** An answer to the query: exactly the listed slots, each once, by start time. */
  ghost predicate Answers(db: Db, userId: Id, dateStart: int, dateEnd: int, now: int, rows: seq<AllottedRow>) {
    && SortedBy(rows, (r: AllottedRow) => r.startAt)
    && Distinct(rows)
    && forall r :: r in rows <==> Listed(db, userId, dateStart, dateEnd, now, r.id) && r == AllottedRowOf(db, r.id)
  }

  lemma ExistsMeetingIsBooked(db: Db, ms: seq<MeetingRow>, slotId: Id)
    requires StoresMeetings(db, ms)
    ensures ExistsMeeting(ms, slotId) <==> slotId in Booked(db)
  {
  }

  lemma {:induction false} SelectAllottedRows(db: Db, ts: seq<SlotRow>, ms: seq<MeetingRow>, userId: Id,
                                              dateStart: int, dateEnd: int, now: int)
    requires StoresMeetings(db, ms)
    requires forall i, j :: 0 <= i < j < |ts| ==> ts[i].id != ts[j].id
    requires forall i :: 0 <= i < |ts| ==> ts[i].id in db.slots && db.slots[ts[i].id] == ts[i].slot
    ensures Distinct(SelectAllotted(ts, ms, userId, dateStart, dateEnd, now))
    ensures forall r :: r in SelectAllotted(ts, ms, userId, dateStart, dateEnd, now) <==>
              && Listed(db, userId, dateStart, dateEnd, now, r.id) && r == AllottedRowOf(db, r.id)
              && SlotRow(r.id, db.slots[r.id]) in ts
  {
    if ts != [] {
      var front, t := ts[..|ts| - 1], ts[|ts| - 1];
      assert ts == front + [t] && t !in front;
      SelectAllottedRows(db, front, ms, userId, dateStart, dateEnd, now);
      ExistsMeetingIsBooked(db, ms, t.id);
    }
  }

  lemma AllottedIsCorrect(db: Db, ts: seq<SlotRow>, ms: seq<MeetingRow>, userId: Id, dateStart: int, dateEnd: int,
                          now: int)
    requires StoresSlots(db, ts) && StoresMeetings(db, ms)
    ensures Answers(db, userId, dateStart, dateEnd, now, ListAllottedTimeslots(ts, ms, userId, dateStart, dateEnd, now))
    ensures var rows := ListAllottedTimeslots(ts, ms, userId, dateStart, dateEnd, now);
            forall i, j :: 0 <= i < j < |rows| ==> rows[i].startAt <= rows[j].startAt && rows[i].id != rows[j].id
  {
    var rows, key := SelectAllotted(ts, ms, userId, dateStart, dateEnd, now), (r: AllottedRow) => r.startAt;
    SelectAllottedRows(db, ts, ms, userId, dateStart, dateEnd, now);
    OrderByProperties(rows, key);
    OrderByKeeps(rows, key);
  }

  /** Adjacent windows concatenate. */
  lemma AdjacentWindowsConcatenate(db: Db, userId: Id, a: int, b: int, c: int, now: int,
                                   early: seq<AllottedRow>, late: seq<AllottedRow>)
    requires a <= b <= c
    requires Answers(db, userId, a, b, now, early) && Answers(db, userId, b, c, now, late)
    ensures Answers(db, userId, a, c, now, early + late)
  {
  }

  /** Two answers to the same query differ only in the order of rows, hence only among equal
      start times. */
  lemma AnswersAreUnique(db: Db, userId: Id, a: int, c: int, now: int, x: seq<AllottedRow>, y: seq<AllottedRow>)
    requires Answers(db, userId, a, c, now, x) && Answers(db, userId, a, c, now, y)
    ensures multiset(x) == multiset(y)
  {
    DistinctIsUnique(x);
    DistinctIsUnique(y);
    forall r ensures multiset(x)[r] == multiset(y)[r] {
      assert r in x <==> r in y;
      assert multiset(x)[r] > 0 <==> r in x;
      assert multiset(y)[r] > 0 <==> r in y;
    }
  }

  // ---- The two lists agree, and a booking shows in both ----

  /** A slot is flagged as booked exactly if the user's calendar has a row for it. */
  lemma FlagMeansCalendarRow(db: Db, userId: Id, a: int, c: int, now: int, rows: seq<AllottedRow>,
                             calendar: seq<CalendarRow>, r: AllottedRow)
    requires Answers(db, userId, a, c, now, rows) && Shows(calendar, CalendarView(db, userId)) && r in rows
    ensures r.isBooked <==>
            exists i :: 0 <= i < |calendar| && calendar[i].meetingId in db.meetings
              && db.meetings[calendar[i].meetingId].timeslotId == r.id
  {
    if r.isBooked {
      var m :| m in db.meetings && db.meetings[m].timeslotId == r.id;
      assert m in CalendarView(db, userId);
      var i :| 0 <= i < |calendar| && calendar[i].meetingId == m;
    }
  }

  lemma BookedAfter(db: Db, id: Id, meeting: Meeting)
    requires id !in db.meetings
    ensures Booked(db.(meetings := db.meetings[id := meeting])) == Booked(db) + {meeting.timeslotId}
  {
    var after := db.(meetings := db.meetings[id := meeting]);
    forall s ensures s in Booked(after) <==> s in Booked(db) || s == meeting.timeslotId {
      if s in Booked(db) {
        var m :| m in db.meetings && db.meetings[m].timeslotId == s;
        assert after.meetings[m] == db.meetings[m];
      }
      if s == meeting.timeslotId { assert after.meetings[id] == meeting; }
    }
  }

  lemma AttendingAfter(db: Db, op: Op, m: Id)
    requires Valid(db) && op.BookMeeting? && op.meetingId !in db.meetings
    ensures var after := db.(meetings := db.meetings[op.meetingId := op.meeting],
                             participants := db.participants + Invitations(op.meetingId, op.attendees));
            Attending(after, m) == if m == op.meetingId then Emails(op.attendees) else Attending(db, m)
  {
  }

  /** Book, then read: the owner's calendar is the old one plus one row with the slot's times and
      the set of the given attendees, no other calendar changes, and of all slots exactly the
      booked one changes its flag. */
  lemma BookingShows(db: Db, op: Op, userId: Id)
    requires Valid(db) && op.BookMeeting? && op.meetingId !in db.meetings && Serial(db, op).1 == Done
    ensures op.meeting.timeslotId in db.slots
    ensures var after, slot := Serial(db, op).0, db.slots[op.meeting.timeslotId];
            var entry := CalendarEntry(op.meeting.title, slot.startAt, slot.endAt, Emails(op.attendees));
            && CalendarView(after, userId) ==
                 (if slot.userId == userId
                  then CalendarView(db, userId)[op.meetingId := entry]
                  else CalendarView(db, userId))
            && after.slots == db.slots
            && op.meeting.timeslotId !in Booked(db) && Booked(after) == Booked(db) + {op.meeting.timeslotId}
  {
    BookingOutcome(db, op);
    var after := Serial(db, op).0;
    BookedAfter(db, op.meetingId, op.meeting);
    assert Booked(after) == Booked(db.(meetings := db.meetings[op.meetingId := op.meeting]));
    CalendarAfter(db, op, userId);
  }

  lemma CalendarAfter(db: Db, op: Op, userId: Id)
    requires Valid(db) && op.BookMeeting? && CanBook(db, op.meetingId, op.meeting.timeslotId)
    ensures var after := db.(meetings := db.meetings[op.meetingId := op.meeting],
                             participants := db.participants + Invitations(op.meetingId, op.attendees));
            var slot := db.slots[op.meeting.timeslotId];
            var entry := CalendarEntry(op.meeting.title, slot.startAt, slot.endAt, Emails(op.attendees));
            CalendarView(after, userId) ==
              if slot.userId == userId
              then CalendarView(db, userId)[op.meetingId := entry]
              else CalendarView(db, userId)
  {
    var after := db.(meetings := db.meetings[op.meetingId := op.meeting],
                     participants := db.participants + Invitations(op.meetingId, op.attendees));
    forall m | m in CalendarView(after, userId)
      ensures Attending(after, m) == if m == op.meetingId then Emails(op.attendees) else Attending(db, m)
    {
      AttendingAfter(db, op, m);
    }
  }
}
