/** How CreateAvailability cuts windows into slots (internal/storage/store.go:62-88).

    Times are integer nanoseconds. The slot length is Go's int64 product, which wraps. */
module Slicing {
  import opened Schema

  const MINUTE := 60_000_000_000
  const TWO_63 := 0x8000_0000_0000_0000
  const TWO_64 := 0x1_0000_0000_0000_0000

  type Int32 = n: int | -0x8000_0000 <= n < 0x8000_0000

  datatype Window = Window(startAt: int, endAt: int)

  function WrapInt64(n: int): int {
    (n + TWO_63) % TWO_64 - TWO_63
  }

  /** time.Duration(durationMins) * time.Minute */
  function SlotLength(durationMins: Int32): int {
    WrapInt64(durationMins * MINUTE)
  }

  predicate InRange(durationMins: int) {
    MIN_DURATION_MINS <= durationMins <= MAX_DURATION_MINS
  }

  lemma LengthInRange(durationMins: Int32)
    requires InRange(durationMins)
    ensures SlotLength(durationMins) == durationMins * MINUTE > 0
  {
  }

  /** The rows the inner loop tries to insert for the rest of a window. A row whose duration is
      out of range breaks a CHECK and ends the loop, so nothing follows it. */
  function WindowRows(userId: Id, startAt: int, endAt: int, durationMins: Int32): (rows: seq<Slot>)
    decreases endAt - startAt
  {
    var length := SlotLength(durationMins);
    if startAt + length > endAt then []
    else [Slot(userId, startAt, startAt + length, durationMins)]
         + if InRange(durationMins) then WindowRows(userId, startAt + length, endAt, durationMins) else []
  }

  /** The rows the outer loop tries to insert, window by window. */
  function Plan(userId: Id, windows: seq<Window>, durationMins: Int32): seq<Slot> {
    if windows == [] then []
    else
      WindowRows(userId, windows[0].startAt, windows[0].endAt, durationMins)
      + Plan(userId, windows[1..], durationMins)
  }

  // ---- Closed form of one window ----

  /** Slot i is [start + i*len, start + (i+1)*len); all fit, and what is left is below one slot. */
  lemma {:induction false} WindowRowsAt(userId: Id, startAt: int, endAt: int, durationMins: Int32)
    requires InRange(durationMins)
    ensures var rows, length := WindowRows(userId, startAt, endAt, durationMins), SlotLength(durationMins);
            && (forall i :: 0 <= i < |rows| ==>
                  rows[i] == Slot(userId, startAt + i * length, startAt + (i + 1) * length, durationMins))
            && (rows != [] ==> startAt + |rows| * length <= endAt)
            && endAt < startAt + (|rows| + 1) * length
    decreases endAt - startAt
  {
    var rows, length := WindowRows(userId, startAt, endAt, durationMins), SlotLength(durationMins);
    assert SlotLength(durationMins) > 0 by { LengthInRange(durationMins); }
    if startAt + length <= endAt {
      var rest := WindowRows(userId, startAt + length, endAt, durationMins);
      WindowRowsAt(userId, startAt + length, endAt, durationMins);
      assert rows == [Slot(userId, startAt, startAt + length, durationMins)] + rest;
      forall i | 0 <= i < |rows|
        ensures rows[i] == Slot(userId, startAt + i * length, startAt + (i + 1) * length, durationMins)
      {
        if i > 0 {
          assert rows[i] == rest[i - 1];
          assert length + (i - 1) * length == i * length && length + i * length == (i + 1) * length;
        }
      }
      assert length + |rest| * length == |rows| * length;
      assert length + (|rest| + 1) * length == (|rows| + 1) * length;
    }
  }

  lemma MulMonotone(m: int, n: int, length: int)
    requires m <= n && length > 0
    ensures m * length <= n * length
  {
  }

  lemma QuotientIsUnique(total: int, length: int, n: nat)
    requires length > 0 && n * length <= total < (n + 1) * length
    ensures total / length == n
  {
    var q := total / length;
    assert q * length <= total < (q + 1) * length;
    if q < n { MulMonotone(q + 1, n, length); }
    if q > n { MulMonotone(n + 1, q, length); }
  }

  lemma WindowCount(userId: Id, startAt: int, endAt: int, durationMins: Int32)
    requires InRange(durationMins)
    ensures |WindowRows(userId, startAt, endAt, durationMins)|
         == if startAt <= endAt then (endAt - startAt) / SlotLength(durationMins) else 0
  {
    assert SlotLength(durationMins) > 0 by { LengthInRange(durationMins); }
    WindowRowsAt(userId, startAt, endAt, durationMins);
    if startAt <= endAt {
      QuotientIsUnique(endAt - startAt, SlotLength(durationMins), |WindowRows(userId, startAt, endAt, durationMins)|);
    }
  }

  // ---- Composition ----

  lemma OneMoreLength(a: int, k: int, length: int)
    ensures a + k * length == (a + length) + (k - 1) * length
  {
  }

  /** Cutting at a slot boundary and slicing both parts gives the same rows. */
  lemma {:induction false} SlicingComposes(userId: Id, a: int, k: nat, b: int, c: int, durationMins: Int32)
    requires InRange(durationMins) && b == a + k * SlotLength(durationMins) && b <= c
    ensures WindowRows(userId, a, c, durationMins)
         == WindowRows(userId, a, b, durationMins) + WindowRows(userId, b, c, durationMins)
    decreases k
  {
    assert SlotLength(durationMins) > 0 by { LengthInRange(durationMins); }
    if k == 0 {
      assert b == a && WindowRows(userId, a, a, durationMins) == [];
    } else {
      OneMoreLength(a, k, SlotLength(durationMins));
      MulMonotone(0, k - 1, SlotLength(durationMins));
      SlicingComposes(userId, a + SlotLength(durationMins), k - 1, b, c, durationMins);
      ComposeOneRow(userId, a, b, c, durationMins);
    }
  }

  lemma ComposeOneRow(userId: Id, a: int, b: int, c: int, durationMins: Int32)
    requires InRange(durationMins) && a + SlotLength(durationMins) <= b <= c
    requires var next := a + SlotLength(durationMins);
             WindowRows(userId, next, c, durationMins) ==
               WindowRows(userId, next, b, durationMins) + WindowRows(userId, b, c, durationMins)
    ensures WindowRows(userId, a, c, durationMins)
         == WindowRows(userId, a, b, durationMins) + WindowRows(userId, b, c, durationMins)
  {
  }

  /** Moving the end of a window later only appends rows. */
  lemma {:induction false} LongerWindowAppends(userId: Id, a: int, b: int, c: int, durationMins: Int32)
    requires InRange(durationMins) && b <= c
    ensures WindowRows(userId, a, b, durationMins) <= WindowRows(userId, a, c, durationMins)
    decreases b - a
  {
    assert SlotLength(durationMins) > 0 by { LengthInRange(durationMins); }
    if a + SlotLength(durationMins) <= b {
      LongerWindowAppends(userId, a + SlotLength(durationMins), b, c, durationMins);
    }
  }

  // ---- Rows of a whole plan ----

  predicate Overlap(startAt: int, endAt: int, startAt': int, endAt': int) {
    startAt < endAt' && startAt' < endAt
  }

  predicate RowInWindow(row: Slot, w: Window) {
    w.startAt <= row.startAt && row.endAt <= w.endAt
  }

  lemma WindowRowsInside(userId: Id, w: Window, durationMins: Int32, rows: seq<Slot>)
    requires InRange(durationMins) && rows == WindowRows(userId, w.startAt, w.endAt, durationMins)
    ensures forall i :: 0 <= i < |rows| ==> RowInWindow(rows[i], w)
    ensures forall i, j :: 0 <= i < j < |rows| ==> rows[i].endAt <= rows[j].startAt
  {
    var length := SlotLength(durationMins);
    assert SlotLength(durationMins) > 0 by { LengthInRange(durationMins); }
    WindowRowsAt(userId, w.startAt, w.endAt, durationMins);
    forall i | 0 <= i < |rows| ensures RowInWindow(rows[i], w) {
      MulMonotone(i + 1, |rows|, length);
      MulMonotone(0, i, length);
    }
    forall i, j | 0 <= i < j < |rows| ensures rows[i].endAt <= rows[j].startAt {
      MulMonotone(i + 1, j, length);
    }
  }

  /** Every planned row lies in the window it was cut from, spans exactly its duration, and
      satisfies every CHECK; with the duration out of range there is at most one row per window
      and none satisfies them. */
  lemma {:induction false} PlannedRow(userId: Id, windows: seq<Window>, durationMins: Int32, k: nat)
    requires k < |Plan(userId, windows, durationMins)|
    ensures var row := Plan(userId, windows, durationMins)[k];
            && row.userId == userId && row.durationMins == durationMins
            && (InRange(durationMins) <==> Checks(row))
            && (InRange(durationMins) ==>
                  && row.endAt - row.startAt == durationMins * MINUTE
                  && exists i :: 0 <= i < |windows| && RowInWindow(row, windows[i]))
  {
    var first := WindowRows(userId, windows[0].startAt, windows[0].endAt, durationMins);
    var row := Plan(userId, windows, durationMins)[k];
    if k < |first| {
      if InRange(durationMins) {
        LengthInRange(durationMins);
        WindowRowsAt(userId, windows[0].startAt, windows[0].endAt, durationMins);
        WindowRowsInside(userId, windows[0], durationMins, first);
        assert (k + 1) * SlotLength(durationMins) - k * SlotLength(durationMins) == SlotLength(durationMins);
        assert RowInWindow(row, windows[0]);
      }
    } else {
      PlannedRow(userId, windows[1..], durationMins, k - |first|);
      if InRange(durationMins) {
        var i :| 0 <= i < |windows[1..]| && RowInWindow(row, windows[1..][i]);
        assert windows[1..][i] == windows[i + 1];
      }
    }
  }

  predicate DisjointWindows(w: Window, w': Window) {
    w.endAt <= w'.startAt || w'.endAt <= w.startAt
  }

  ghost predicate PairwiseDisjoint(windows: seq<Window>) {
    forall i, j :: 0 <= i < j < |windows| ==> DisjointWindows(windows[i], windows[j])
  }

  /** Slots cut from windows that do not overlap do not overlap either. */
  lemma {:induction false} PlannedRowsDisjoint(userId: Id, windows: seq<Window>, durationMins: Int32, j: nat, k: nat)
    requires InRange(durationMins) && PairwiseDisjoint(windows)
    requires j < k < |Plan(userId, windows, durationMins)|
    ensures var rows := Plan(userId, windows, durationMins);
            !Overlap(rows[j].startAt, rows[j].endAt, rows[k].startAt, rows[k].endAt)
  {
    var w := windows[0];
    var first := WindowRows(userId, w.startAt, w.endAt, durationMins);
    WindowRowsInside(userId, w, durationMins, first);
    assert Plan(userId, windows, durationMins) == first + Plan(userId, windows[1..], durationMins);
    if j >= |first| {
      PlannedRowsDisjoint(userId, windows[1..], durationMins, j - |first|, k - |first|);
    } else if k >= |first| {
      PlannedRow(userId, windows[1..], durationMins, k - |first|);
      var row := Plan(userId, windows[1..], durationMins)[k - |first|];
      var i :| 0 <= i < |windows[1..]| && RowInWindow(row, windows[1..][i]);
      assert windows[1..][i] == windows[i + 1];
      assert DisjointWindows(windows[0], windows[i + 1]);
    }
  }

  // ---- In numbers ----

  /** The conversion to int64 gives the one number in range that differs by a multiple of 2^64. */
  lemma WrapsAround(n: int, m: int)
    requires -9223372036854775808 <= m < 9223372036854775808
    ensures WrapInt64(n) == m <==> (n - m) % 18446744073709551616 == 0
  {
    var k := (n - m) / TWO_64;
    if (n - m) % TWO_64 == 0 {
      assert n + TWO_63 == k * TWO_64 + (m + TWO_63);
      QuotientIsUniqueFor(n + TWO_63, k, m + TWO_63);
    }
    if WrapInt64(n) == m {
      var q := (n + TWO_63) / TWO_64;
      assert n - m == q * TWO_64;
    }
  }

  lemma QuotientIsUniqueFor(total: int, k: int, rest: int)
    requires total == k * TWO_64 + rest && 0 <= rest < TWO_64
    ensures total % TWO_64 == rest
  {
  }

  /** A slot of d minutes lasts d times 60 seconds of 10^9 nanoseconds; an hour is 3.6 * 10^12. */
  lemma LengthInNumbers(durationMins: Int32)
    requires 10 <= durationMins <= 60
    ensures SlotLength(durationMins) == durationMins * 60_000_000_000
    ensures SlotLength(60) == 3_600_000_000_000 && SlotLength(10) == 600_000_000_000
  {
  }

  /** Two periods overlap if and only if they share an instant, and windows are disjoint if and only
      if they do not. */
  lemma OverlapMeansSharedInstant(startAt: int, endAt: int, startAt': int, endAt': int)
    requires startAt < endAt && startAt' < endAt'
    ensures Overlap(startAt, endAt, startAt', endAt') <==>
            exists i :: Within(i, startAt, endAt) && Within(i, startAt', endAt')
    ensures DisjointWindows(Window(startAt, endAt), Window(startAt', endAt')) <==>
            !exists i :: Within(i, startAt, endAt) && Within(i, startAt', endAt')
  {
    var later := if startAt < startAt' then startAt' else startAt;
    assert Within(later, startAt, endAt) && Within(later, startAt', endAt') <==> later < endAt && later < endAt';
  }

  predicate Within(i: int, startAt: int, endAt: int) {
    startAt <= i < endAt
  }

  // ---- The whole plan in closed form ----

  lemma QuotientIsNatural(total: int, length: int)
    requires total >= 0 && length > 0
    ensures total / length >= 0
  {
  }

  /** How many whole slots fit into the window. */
  function Fitting(w: Window, durationMins: Int32): nat
    requires InRange(durationMins)
  {
    if w.endAt < w.startAt then 0
    else
      QuotientIsNatural(w.endAt - w.startAt, durationMins * 60_000_000_000);
      (w.endAt - w.startAt) / (durationMins * 60_000_000_000)
  }

  /** ... and into the first n windows together. */
  function FittingBefore(windows: seq<Window>, durationMins: Int32, n: nat): nat
    requires InRange(durationMins) && n <= |windows|
  {
    if n == 0 then 0 else FittingBefore(windows, durationMins, n - 1) + Fitting(windows[n - 1], durationMins)
  }

  lemma {:induction false} FittingOfRest(windows: seq<Window>, durationMins: Int32, n: nat)
    requires InRange(durationMins) && 0 < n <= |windows|
    ensures FittingBefore(windows, durationMins, n)
         == Fitting(windows[0], durationMins) + FittingBefore(windows[1..], durationMins, n - 1)
  {
    if n > 1 {
      FittingOfRest(windows, durationMins, n - 1);
      assert windows[1..][n - 2] == windows[n - 1];
    }
  }

  lemma FittingIsCount(userId: Id, w: Window, durationMins: Int32)
    requires InRange(durationMins)
    ensures |WindowRows(userId, w.startAt, w.endAt, durationMins)| == Fitting(w, durationMins)
  {
    LengthInRange(durationMins);
    WindowCount(userId, w.startAt, w.endAt, durationMins);
  }

  lemma {:induction false} PlanLength(userId: Id, windows: seq<Window>, durationMins: Int32)
    requires InRange(durationMins)
    ensures |Plan(userId, windows, durationMins)| == FittingBefore(windows, durationMins, |windows|)
    decreases |windows|
  {
    if windows != [] {
      FittingIsCount(userId, windows[0], durationMins);
      FittingOfRest(windows, durationMins, |windows|);
      PlanLength(userId, windows[1..], durationMins);
    }
  }

  /** Row i of window n comes after all rows of the windows before it, and spans the i-th whole slot
      of its window. */
  lemma {:induction false} PlannedRowAt(userId: Id, windows: seq<Window>, durationMins: Int32, n: nat, i: nat)
    requires InRange(durationMins) && n < |windows| && i < Fitting(windows[n], durationMins)
    ensures var k, length := FittingBefore(windows, durationMins, n) + i, durationMins * 60_000_000_000;
            && k < |Plan(userId, windows, durationMins)|
            && Plan(userId, windows, durationMins)[k] ==
                 Slot(userId, windows[n].startAt + i * length, windows[n].startAt + (i + 1) * length, durationMins)
    decreases |windows|
  {
    FittingIsCount(userId, windows[0], durationMins);
    if n == 0 {
      FirstWindowRowAt(userId, windows, durationMins, i);
    } else {
      FittingOfRest(windows, durationMins, n);
      assert windows[1..][n - 1] == windows[n];
      PlannedRowAt(userId, windows[1..], durationMins, n - 1, i);
    }
  }

  lemma FirstWindowRowAt(userId: Id, windows: seq<Window>, durationMins: Int32, i: nat)
    requires InRange(durationMins) && windows != [] && i < Fitting(windows[0], durationMins)
    ensures var length := durationMins * 60_000_000_000;
            && i < |Plan(userId, windows, durationMins)|
            && Plan(userId, windows, durationMins)[i] ==
                 Slot(userId, windows[0].startAt + i * length, windows[0].startAt + (i + 1) * length, durationMins)
  {
    FittingIsCount(userId, windows[0], durationMins);
    LengthInRange(durationMins);
    WindowRowsAt(userId, windows[0].startAt, windows[0].endAt, durationMins);
    assert Plan(userId, windows, durationMins)[i]
        == WindowRows(userId, windows[0].startAt, windows[0].endAt, durationMins)[i];
  }

  /** Every planned row is one of those. */
  lemma {:induction false} PlannedRowIsOne(userId: Id, windows: seq<Window>, durationMins: Int32, k: nat)
    returns (n: nat, i: nat)
    requires InRange(durationMins) && k < |Plan(userId, windows, durationMins)|
    ensures n < |windows| && i < Fitting(windows[n], durationMins) && k == FittingBefore(windows, durationMins, n) + i
    decreases |windows|
  {
    FittingIsCount(userId, windows[0], durationMins);
    if k < Fitting(windows[0], durationMins) {
      n, i := 0, k;
    } else {
      n, i := PlannedRowIsOne(userId, windows[1..], durationMins, k - Fitting(windows[0], durationMins));
      n := n + 1;
      FittingOfRest(windows, durationMins, n);
      assert windows[1..][n - 1] == windows[n];
    }
  }
}
