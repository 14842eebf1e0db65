/**
 * The departure board: the timetable's stops are filtered to S-Bahn trains
 * leaving within the next hour, turned into (line, time, destination) rows,
 * sorted by time and cut to the first twelve for display.
 *
 * The clock is a parameter: `nowUs` is the current local wall-clock time in
 * microseconds since 0001-01-01 00:00, the timeline on which two datetimes
 * sharing one tzinfo are compared.
 */
module Departures {
  import opened Wrappers
  import opened DbTime
  import opened Sorting

  /** The `dp` element of a stop; a missing attribute reads as `""`. */
  datatype DepartureEvent = DepartureEvent(pt: string, ppth: string)

  /**
   * One `s` element of the timetable: `tl` is the `c` attribute of its
   * `tl` child (`""` when the attribute is missing), `None` without that
   * child; `dp` is its `dp` child, if any.
   */
  datatype Stop = Stop(tl: Option<string>, dp: Option<DepartureEvent>)

  /** One row of the board. */
  datatype Row = Row(line: string, time: DateTime, dest: string)

  /** `timedelta(hours=1)` in microseconds. */
  const Hour: int := 3_600_000_000

  /** How many rows the board shows. */
  const MaxShown: nat := 12

  /** A decoded time on the microsecond timeline of `nowUs`. */
  function Micros(dt: DateTime): int
    requires ValidDateTime(dt)
  {
    Stamp(dt) * 60_000_000
  }

  /** Microsecond stamps order decoded times as datetime comparison does. */
  lemma MicrosOrder(a: DateTime, b: DateTime)
    requires ValidDateTime(a) && ValidDateTime(b)
    ensures Micros(a) < Micros(b) <==> Before(a, b)
    ensures Micros(a) == Micros(b) <==> a == b
  {
    StampOrder(a, b);
  }

  /** `line_code.startswith("S")`. */
  predicate IsSBahn(c: string) {
    "S" <= c
  }

  // ---------------------------------------------------------------------------
  // Destinations

  /** `path.split("|")[-1]`: what follows the last `|`, or the whole path without one. */
  function LastSegment(path: string): (r: string)
    ensures |r| <= |path| && r == path[|path| - |r|..]
    ensures forall k :: 0 <= k < |r| ==> r[k] != '|'
    ensures |r| == |path| || path[|path| - |r| - 1] == '|'
  {
    if path == [] || path[|path| - 1] == '|' then []
    else LastSegment(path[..|path| - 1]) + [path[|path| - 1]]
  }

  /** The destination shown for a `ppth` attribute. */
  function Destination(path: string): string
  {
    if path != "" then LastSegment(path) else "Unknown"
  }

  /** The last segment of a path is the part after its final separator. */
  lemma {:induction false} LastSegmentAfter(a: string, b: string)
    requires forall k :: 0 <= k < |b| ==> b[k] != '|'
    ensures LastSegment(a + "|" + b) == b
    decreases |b|
  {
    var p := a + "|" + b;
    if b != [] {
      var b' := b[..|b| - 1];
      assert p[..|p| - 1] == a + "|" + b';
      LastSegmentAfter(a, b');
      assert b == b' + [b[|b| - 1]];
    }
  }

  /** A path without a separator is its own last segment. */
  lemma {:induction false} LastSegmentWhole(path: string)
    requires forall k :: 0 <= k < |path| ==> path[k] != '|'
    ensures LastSegment(path) == path
    decreases |path|
  {
    if path != [] {
      LastSegmentWhole(path[..|path| - 1]);
    }
  }

  // ---------------------------------------------------------------------------
  // The rows

  /**
   * A stop the board lists: an S-Bahn trip label, a departure whose planned
   * time decodes, and that time between now and one hour from now, both
   * ends included.
   */
  predicate Qualifies(s: Stop, nowUs: int) {
    && s.tl.Some? && IsSBahn(s.tl.value)
    && s.dp.Some?
    && ParseDbTime(s.dp.value.pt).Some?
    && nowUs <= Micros(ParseDbTime(s.dp.value.pt).value) <= nowUs + Hour
  }

  /** The row a qualifying stop contributes. */
  function RowOf(s: Stop, nowUs: int): Row
    requires Qualifies(s, nowUs)
  {
    Row(s.tl.value, ParseDbTime(s.dp.value.pt).value, Destination(s.dp.value.ppth))
  }

  /** The rows collected from `stops`, in timetable order. */
  function Candidates(stops: seq<Stop>, nowUs: int): seq<Row>
  {
    if stops == [] then []
    else
      var last := stops[|stops| - 1];
      Candidates(stops[..|stops| - 1], nowUs) + (if Qualifies(last, nowUs) then [RowOf(last, nowUs)] else [])
  }

  /** The loop of the departure handler that appends a row per qualifying stop. */
  method CollectRows(stops: seq<Stop>, nowUs: int) returns (rows: seq<Row>)
    ensures rows == Candidates(stops, nowUs)
  {
    rows := [];
    for i := 0 to |stops|
      invariant rows == Candidates(stops[..i], nowUs)
    {
      assert stops[..i + 1][..i] == stops[..i];
      var s := stops[i];
      if s.tl.None? {
        continue;
      }
      var lineCode := s.tl.value;
      if !("S" <= lineCode) {
        continue;
      }
      if s.dp.None? {
        continue;
      }
      var code := s.dp.value.pt;
      var dt := ParseDbTime(code);
      if dt.None? {
        continue;
      }
      if !(nowUs <= Micros(dt.value) <= nowUs + Hour) {
        continue;
      }
      var path := s.dp.value.ppth;
      var dest := if path != "" then LastSegment(path) else "Unknown";
      rows := rows + [Row(lineCode, dt.value, dest)];
    }
    assert stops[..|stops|] == stops;
  }

  /** Every collected row is the row of a qualifying stop. */
  lemma {:induction false} CandidateSource(stops: seq<Stop>, nowUs: int, k: nat) returns (i: nat)
    requires k < |Candidates(stops, nowUs)|
    ensures i < |stops| && Qualifies(stops[i], nowUs) && Candidates(stops, nowUs)[k] == RowOf(stops[i], nowUs)
    decreases |stops|
  {
    var init := stops[..|stops| - 1];
    if k < |Candidates(init, nowUs)| {
      i := CandidateSource(init, nowUs, k);
      assert stops[i] == init[i];
    } else {
      i := |stops| - 1;
    }
  }

  /** Every qualifying stop contributes its row. */
  lemma {:induction false} CandidateComplete(stops: seq<Stop>, nowUs: int, i: nat) returns (k: nat)
    requires i < |stops| && Qualifies(stops[i], nowUs)
    ensures k < |Candidates(stops, nowUs)| && Candidates(stops, nowUs)[k] == RowOf(stops[i], nowUs)
    decreases |stops|
  {
    var init := stops[..|stops| - 1];
    if i < |stops| - 1 {
      assert stops[i] == init[i];
      k := CandidateComplete(init, nowUs, i);
    } else {
      k := |Candidates(init, nowUs)|;
    }
  }

  /** What a row of a qualifying stop says: each condition of the departure loop, spelled out. */
  lemma RowFacts(s: Stop, nowUs: int)
    requires Qualifies(s, nowUs)
    ensures var r := RowOf(s, nowUs);
            && s.tl == Some(r.line) && |r.line| > 0 && r.line[0] == 'S'
            && s.dp.Some? && ParseDbTime(s.dp.value.pt) == Some(r.time) && ValidDateTime(r.time)
            && nowUs <= Micros(r.time) <= nowUs + Hour
            && (s.dp.value.ppth == "" ==> r.dest == "Unknown")
            && (s.dp.value.ppth != "" ==> r.dest == LastSegment(s.dp.value.ppth))
  {
  }

  // ---------------------------------------------------------------------------
  // The board

  /**
   * The sort key of `rows.sort(key=lambda x: x[1])`: the minute stamp, which
   * orders decoded times as their comparison does (`DbTime.StampOrder`).
   * Rows without a valid time never occur (`CandidateSource`, `RowFacts`).
   */
  function Departs(r: Row): int
  {
    if ValidDateTime(r.time) then Stamp(r.time) else 0
  }

  function Min(a: int, b: int): int {
    if a <= b then a else b
  }

  /** The rows the board displays: sorted by time, then `rows[:12]`. */
  function Board(stops: seq<Stop>, nowUs: int): seq<Row>
  {
    var sorted := SortBy(Candidates(stops, nowUs), Departs);
    sorted[..Min(MaxShown, |sorted|)]
  }

  /** The departure handler from the stops on: collect, sort in place, show the first twelve. */
  method DepartureBoard(stops: seq<Stop>, nowUs: int) returns (shown: seq<Row>)
    ensures shown == Board(stops, nowUs)
  {
    var rows := CollectRows(stops, nowUs);
    if rows == [] {
      return [];
    }
    rows := SortBy(rows, Departs);
    shown := if |rows| <= MaxShown then rows else rows[..MaxShown];
  }

  /** The board shows twelve rows, or all of them when there are fewer; none exactly when no stop qualifies. */
  lemma BoardSize(stops: seq<Stop>, nowUs: int)
    ensures |Board(stops, nowUs)| == Min(MaxShown, |Candidates(stops, nowUs)|) <= MaxShown
    ensures Board(stops, nowUs) == [] <==> forall i :: 0 <= i < |stops| ==> !Qualifies(stops[i], nowUs)
  {
    if Board(stops, nowUs) == [] {
      forall i | 0 <= i < |stops| ensures !Qualifies(stops[i], nowUs) {
        if Qualifies(stops[i], nowUs) {
          var k := CandidateComplete(stops, nowUs, i);
        }
      }
    } else {
      var i := CandidateSource(stops, nowUs, 0);
    }
  }

  /** The board is in departure order: no row departs before the one above it. */
  lemma BoardSorted(stops: seq<Stop>, nowUs: int)
    ensures var b := Board(stops, nowUs);
            forall i, j :: 0 <= i < j < |b| ==> Departs(b[i]) <= Departs(b[j]) && !Before(b[j].time, b[i].time)
  {
    var sorted := SortBy(Candidates(stops, nowUs), Departs);
    var b := Board(stops, nowUs);
    forall i, j | 0 <= i < j < |b| ensures Departs(b[i]) <= Departs(b[j]) && !Before(b[j].time, b[i].time) {
      assert b[i] == sorted[i] && b[j] == sorted[j];
      var si := BoardSource(stops, nowUs, i);
      var sj := BoardSource(stops, nowUs, j);
      RowFacts(stops[si], nowUs);
      RowFacts(stops[sj], nowUs);
      StampOrder(b[j].time, b[i].time);
    }
  }

  /** Every displayed row is the row of a qualifying stop. */
  lemma BoardSource(stops: seq<Stop>, nowUs: int, k: nat) returns (i: nat)
    requires k < |Board(stops, nowUs)|
    ensures i < |stops| && Qualifies(stops[i], nowUs) && Board(stops, nowUs)[k] == RowOf(stops[i], nowUs)
  {
    var c := Candidates(stops, nowUs);
    var sorted := SortBy(c, Departs);
    var b := Board(stops, nowUs);
    assert b[k] == sorted[k];
    assert b[k] in multiset(c);
    var k' :| 0 <= k' < |c| && c[k'] == b[k];
    i := CandidateSource(stops, nowUs, k');
  }

  /**
   * The board is part of the collected rows, each shown at most as often as
   * it was collected, and no row left off it departs earlier than a displayed one.
   */
  lemma BoardEarliest(stops: seq<Stop>, nowUs: int)
    ensures multiset(Board(stops, nowUs)) <= multiset(Candidates(stops, nowUs))
    ensures var c := Candidates(stops, nowUs);
            var b := Board(stops, nowUs);
            forall x, y :: x in b && y in multiset(c) - multiset(b) ==> Departs(x) <= Departs(y)
  {
    var c := Candidates(stops, nowUs);
    var sorted := SortBy(c, Departs);
    SortedPrefixSmallest(sorted, Departs, Min(MaxShown, |sorted|));
  }
}
