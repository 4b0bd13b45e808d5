/**
 Difference values per time window: windows of one hour, day, week, month or year laid
 backwards from the first boundary after the end of the range, clipped to the range.
 Times are milliseconds; the local zone is a fixed offset from UTC.
 */
module DiffWindows {
  import opened Prelude
  import opened Integers
  import opened Calendar

  datatype Unit = Hour | Day | Week | Month | Year

  const HOUR := 3600000
  const DAY := 24 * HOUR
  const MAX_WINDOWS := 100

  function ParseUnit(timeType: string): Option<Unit> {
    if timeType == "hour" then Some(Hour)
    else if timeType == "day" then Some(Day)
    else if timeType == "week" then Some(Week)
    else if timeType == "month" then Some(Month)
    else if timeType == "year" then Some(Year)
    else None
  }

  /** The width by which windows are counted; months and years are only estimated by it. */
  function Width(u: Unit): (w: int)
    ensures w > 0
  {
    match u
    case Hour => HOUR
    case Day => DAY
    case Week => 7 * DAY
    case Month => 30 * DAY
    case Year => 365 * DAY
  }

  /** Midnight of the zone at the start of a month. */
  function MonthEdge(month: int, offset: int): int {
    MonthStart(month) * DAY - offset
  }

  /** The month that holds an instant of the zone. */
  function MonthAt(t: int, offset: int): int {
    MonthOf((t + offset) / DAY)
  }

  /** The first month of the year after the month's. */
  function NextYear(month: int): int {
    month - month % 12 + 12
  }

  /** The first boundary of the zone after `end`; weeks, too, end on the next midnight. */
  function Align(end: int, u: Unit, offset: int): int {
    match u
    case Hour => NextMultiple(end + offset, HOUR) - offset
    case Day => NextMultiple(end + offset, DAY) - offset
    case Week => NextMultiple(end + offset, DAY) - offset
    case Month => MonthEdge(MonthAt(end, offset) + 1, offset)
    case Year => MonthEdge(NextYear(MonthAt(end, offset)), offset)
  }

  function NextMultiple(x: int, s: int): int
    requires s > 0
  {
    x / s * s + s
  }

  lemma NextMultipleIsNext(x: int, s: int)
    requires s > 0
    ensures x < NextMultiple(x, s) <= x + s && NextMultiple(x, s) % s == 0
  {
    assert x == x / s * s + x % s;
    Multiple(x / s + 1, s);
    assert (x / s + 1) * s == x / s * s + s;
  }

  lemma MonthEdges(a: int, b: int, offset: int)
    requires a < b
    ensures MonthEdge(a, offset) + 28 * DAY * (b - a) <= MonthEdge(b, offset)
  {
    MonthStartGrows(a, b);
  }

  /** The end of the range lies in its month. */
  lemma InItsMonth(t: int, offset: int)
    ensures MonthEdge(MonthAt(t, offset), offset) <= t < MonthEdge(MonthAt(t, offset) + 1, offset)
  {
    var day := (t + offset) / DAY;
    var m := MonthOf(day);
    MonthStartNext(m);
    Quotient(t + offset, DAY);
    assert MonthStart(m) <= day && day + 1 <= MonthStart(m + 1);
  }

  /** Hours, days and weeks: the next whole hour or midnight of the zone. */
  lemma AlignIsNext(end: int, u: Unit, offset: int)
    requires !u.Month? && !u.Year?
    ensures var s := if u.Hour? then HOUR else DAY;
            end < Align(end, u, offset) <= end + s && (Align(end, u, offset) + offset) % s == 0
  {
    NextMultipleIsNext(end + offset, if u.Hour? then HOUR else DAY);
  }

  /** Months: the start of the next month of the zone. */
  lemma AlignIsNextMonth(end: int, offset: int)
    ensures MonthEdge(MonthAt(end, offset), offset) <= end < Align(end, Month, offset)
    ensures Align(end, Month, offset) == MonthEdge(MonthAt(end, offset) + 1, offset)
  {
    InItsMonth(end, offset);
  }

  lemma NextYearIsNext(month: int)
    ensures NextYear(month) - 12 <= month < NextYear(month) && NextYear(month) % 12 == 0
  {
  }

  /** Years: the start of the next January of the zone. */
  lemma AlignIsNextYear(end: int, offset: int)
    ensures MonthEdge(NextYear(MonthAt(end, offset)) - 12, offset) <= end < Align(end, Year, offset)
    ensures NextYear(MonthAt(end, offset)) % 12 == 0
  {
    var m := MonthAt(end, offset);
    InItsMonth(end, offset);
    NextYearIsNext(m);
    if m + 1 < NextYear(m) {
      MonthEdges(m + 1, NextYear(m), offset);
    }
    if NextYear(m) - 12 < m {
      MonthEdges(NextYear(m) - 12, m, offset);
    }
  }

  /** Go's conversion of a float quotient to int: towards zero. */
  function Truncated(a: int, b: int): int
    requires b > 0
  {
    if a >= 0 then a / b else -(-a / b)
  }

  function WindowCount(start: int, aligned: int, w: int): int
    requires w > 0
  {
    var n := Truncated(aligned - start, w) + 1;
    if n > MAX_WINDOWS then MAX_WINDOWS else n
  }

  // ---------------------------------------------------------------- windows

  datatype Window = Window(start: int, end: int)

  /** How the windows of a call lie: the unit, the zone, and the boundary they are counted back from. */
  datatype Layout = Layout(u: Unit, offset: int, aligned: int)

  /** The boundary `i` windows before the aligned end. */
  function Edge(l: Layout, i: int): int {
    match l.u
    case Month => MonthEdge(MonthAt(l.aligned, l.offset) - i, l.offset)
    case Year => MonthEdge(MonthAt(l.aligned, l.offset) - 12 * i, l.offset)
    case _ => l.aligned - i * Width(l.u)
  }

  /** Months and years are counted back from midnight at the start of a month. */
  predicate Sound(l: Layout) {
    l.u.Month? || l.u.Year? ==> l.aligned == MonthEdge(MonthAt(l.aligned, l.offset), l.offset)
  }

  function LayoutOf(end: int, u: Unit, offset: int): Layout {
    Layout(u, offset, Align(end, u, offset))
  }

  lemma EdgeMonth(month: int, offset: int)
    ensures MonthAt(MonthEdge(month, offset), offset) == month
  {
    Multiple(MonthStart(month), DAY);
    MonthUnique(MonthStart(month), month);
  }

  lemma LayoutSound(end: int, u: Unit, offset: int)
    ensures Sound(LayoutOf(end, u, offset)) && Edge(LayoutOf(end, u, offset), 0) == Align(end, u, offset) > end
  {
    if u.Month? {
      AlignIsNextMonth(end, offset);
      EdgeMonth(MonthAt(end, offset) + 1, offset);
    } else if u.Year? {
      AlignIsNextYear(end, offset);
      EdgeMonth(NextYear(MonthAt(end, offset)), offset);
    } else {
      AlignIsNext(end, u, offset);
    }
  }

  /** Every window but a short month is at least as wide as its estimate, and a month has at least 28 days. */
  lemma EdgeFalls(l: Layout, i: int)
    ensures Edge(l, i + 1) + (if l.u.Month? then 28 * DAY else Width(l.u)) <= Edge(l, i)
    ensures !l.u.Month? && !l.u.Year? ==> Edge(l, i + 1) + Width(l.u) == Edge(l, i)
  {
    var m := MonthAt(l.aligned, l.offset);
    match l.u
    case Month => MonthEdges(m - i - 1, m - i, l.offset);
    case Year =>
      YearLength(m - 12 * i);
      assert m - 12 * (i + 1) == m - 12 * i - 12;
    case _ => assert (i + 1) * Width(l.u) == i * Width(l.u) + Width(l.u);
  }

  lemma {:induction false} EdgesFall(l: Layout, i: int, j: int)
    requires i <= j
    ensures Edge(l, j) <= Edge(l, i)
    ensures !l.u.Month? ==> Edge(l, j) + (j - i) * Width(l.u) <= Edge(l, i)
    ensures i < j ==> Edge(l, j) < Edge(l, i)
    decreases j - i
  {
    if i < j {
      EdgesFall(l, i, j - 1);
      EdgeFalls(l, j - 1);
      assert (j - i) * Width(l.u) == (j - 1 - i) * Width(l.u) + Width(l.u);
    }
  }

  function Nth(l: Layout, i: nat): Window {
    Window(Edge(l, i + 1), Edge(l, i))
  }

  predicate Meets(win: Window, start: int, end: int) {
    !(win.end <= start || win.start >= end)
  }

  function Max(a: int, b: int): int {
    if a < b then b else a
  }

  function Min(a: int, b: int): int {
    if a > b then b else a
  }

  function Clip(win: Window, start: int, end: int): Window {
    Window(Max(win.start, start), Min(win.end, end))
  }

  /** One of the first `n` windows takes in this instant. */
  ghost predicate Covered(l: Layout, start: int, end: int, n: int, t: int) {
    exists i: nat :: i < n && Meets(Nth(l, i), start, end) &&
                     Clip(Nth(l, i), start, end).start <= t <= Clip(Nth(l, i), start, end).end
  }

  /** Two windows overlap at most in an edge, and only neighbours share one. */
  lemma OverlapAtEdges(l: Layout, start: int, end: int, i: nat, j: nat)
    requires i < j && Meets(Nth(l, i), start, end) && Meets(Nth(l, j), start, end)
    ensures Clip(Nth(l, j), start, end).end <= Clip(Nth(l, i), start, end).start
    ensures Clip(Nth(l, j), start, end).end == Clip(Nth(l, i), start, end).start ==> j == i + 1
    ensures start < end ==> Clip(Nth(l, i), start, end).start < Clip(Nth(l, i), start, end).end
  {
    EdgesFall(l, i + 1, j);
    EdgeFalls(l, i);
  }

  /** The instant is one of the first boundaries. */
  predicate OnEdge(l: Layout, n: nat, t: int) {
    exists k :: 0 <= k <= n && Edge(l, k) == t
  }

  /** The window that holds an instant and does not end in it. */
  lemma {:induction false} Locate(l: Layout, n: nat, t: int) returns (i: nat)
    requires Edge(l, n) <= t < Edge(l, 0)
    ensures i < n && Edge(l, i + 1) <= t < Edge(l, i)
  {
    if t < Edge(l, n - 1) {
      i := n - 1;
    } else {
      i := Locate(l, n - 1, t);
    }
  }

  lemma CoversInstant(l: Layout, start: int, end: int, n: nat, t: int)
    requires start <= t <= end < Edge(l, 0) && Edge(l, n) <= start && !(start == end && OnEdge(l, n, start))
    ensures Covered(l, start, end, n, t)
  {
    var i := Locate(l, n, t);
    if Edge(l, i + 1) < end {
      assert Meets(Nth(l, i), start, end);
    } else {
      // the right end of the range is a boundary: the window that ends there takes it in
      assert Edge(l, i + 1) == t == end && start < end;
      EdgeFalls(l, i + 1);
      assert Meets(Nth(l, i + 1), start, end);
    }
  }

  /**
   The first windows cover the whole range exactly when they reach back to its start, and the
   range is not a single instant lying on a boundary.
   */
  lemma CoversIff(l: Layout, start: int, end: int, n: nat)
    requires start <= end < Edge(l, 0)
    ensures (forall t :: start <= t <= end ==> Covered(l, start, end, n, t)) <==>
            Edge(l, n) <= start && !(start == end && OnEdge(l, n, start))
  {
    if Edge(l, n) <= start && !(start == end && OnEdge(l, n, start)) {
      forall t | start <= t <= end
        ensures Covered(l, start, end, n, t)
      {
        CoversInstant(l, start, end, n, t);
      }
    } else {
      StartUncovered(l, start, end, n);
    }
  }

  lemma StartUncovered(l: Layout, start: int, end: int, n: nat)
    requires start <= end && (Edge(l, n) > start || (start == end && OnEdge(l, n, start)))
    ensures !Covered(l, start, end, n, start)
  {
    forall i: nat | i < n && Meets(Nth(l, i), start, end)
      ensures Clip(Nth(l, i), start, end).start > start
    {
      EdgesFall(l, i + 1, n);
      if start == end && OnEdge(l, n, start) {
        var k :| 0 <= k <= n && Edge(l, k) == start;
        if i < k {
          EdgesFall(l, i + 1, k);
        } else {
          EdgesFall(l, k, i);
        }
      }
    }
  }

  /** Windows at least as wide as their estimate reach back to the start iff a hundred of them do. */
  lemma ReachIff(l: Layout, start: int)
    requires !l.u.Month? && start < l.aligned == Edge(l, 0)
    ensures var n := WindowCount(start, l.aligned, Width(l.u));
            n >= 0 && (Edge(l, n) <= start <==> Edge(l, MAX_WINDOWS) <= start)
  {
    var w, x := Width(l.u), l.aligned - start;
    var n := WindowCount(start, l.aligned, w);
    Quotient(x, w);
    if n < MAX_WINDOWS {
      EdgesFall(l, 0, n);
      EdgesFall(l, n, MAX_WINDOWS);
      assert (x / w + 1) * w == x / w * w + w;
    }
  }

  /**
   For hours, days, weeks and years: the range is covered iff it is within a hundred windows
   and not one instant on a boundary.
   */
  lemma RangeCoveredIff(start: int, end: int, u: Unit, offset: int)
    requires start <= end && !u.Month?
    ensures var l := LayoutOf(end, u, offset);
            var n := WindowCount(start, l.aligned, Width(u));
            && n >= 0
            && ((forall t :: start <= t <= end ==> Covered(l, start, end, n, t)) <==>
                  Edge(l, MAX_WINDOWS) <= start && !(start == end && OnEdge(l, n, start)))
  {
    var l := LayoutOf(end, u, offset);
    LayoutSound(end, u, offset);
    ReachIff(l, start);
    CoversIff(l, start, end, WindowCount(start, l.aligned, Width(u)));
  }

  lemma FixedWidths(l: Layout, start: int, i: nat)
    requires !l.u.Month? && !l.u.Year?
    ensures Edge(l, i) <= start <==> l.aligned - start <= i * Width(l.u)
    ensures Edge(l, i) == start <==> l.aligned - start == i * Width(l.u)
  {
  }

  /** The start is one of the boundaries counted back to iff it lies a whole number of widths before the aligned end. */
  lemma FixedOnEdgeIff(l: Layout, start: int)
    requires !l.u.Month? && !l.u.Year? && start < l.aligned && l.aligned - start <= MAX_WINDOWS * Width(l.u)
    ensures var n := WindowCount(start, l.aligned, Width(l.u));
            n >= 0 && (OnEdge(l, n, start) <==> (l.aligned - start) % Width(l.u) == 0)
  {
    var w, x := Width(l.u), l.aligned - start;
    var n := WindowCount(start, l.aligned, w);
    Quotient(x, w);
    if OnEdge(l, n, start) {
      var k :| 0 <= k <= n && Edge(l, k) == start;
      Multiple(k, w);
    }
    if x % w == 0 {
      assert x == x / w * w;
      if x / w > MAX_WINDOWS {
        Steps(MAX_WINDOWS, x / w, w);
      }
      assert Edge(l, x / w) == start;
    }
  }

  /**
   For hours, days and weeks in plain arithmetic: the range is covered iff it reaches back
   at most a hundred widths, and is not a single instant a whole number of widths back.
   */
  lemma FixedCoveredIff(start: int, end: int, u: Unit, offset: int)
    requires start <= end && !u.Month? && !u.Year?
    ensures var l := LayoutOf(end, u, offset);
            var n, w := WindowCount(start, l.aligned, Width(u)), Width(u);
            && n >= 0
            && ((forall t :: start <= t <= end ==> Covered(l, start, end, n, t)) <==>
                  l.aligned - start <= MAX_WINDOWS * w && !(start == end && (l.aligned - start) % w == 0))
  {
    var l := LayoutOf(end, u, offset);
    LayoutSound(end, u, offset);
    RangeCoveredIff(start, end, u, offset);
    FixedWidths(l, start, MAX_WINDOWS);
    if l.aligned - start <= MAX_WINDOWS * Width(u) {
      FixedOnEdgeIff(l, start);
    }
  }

  /** A range of a hundred hours and a bit: the hundred windows do not reach its start. */
  lemma HundredWindowsGap()
    ensures var start, end := -100 * HOUR, 0;
            var l := LayoutOf(end, Hour, 0);
            WindowCount(start, l.aligned, Width(Hour)) == MAX_WINDOWS && !Covered(l, start, end, MAX_WINDOWS, start)
  {
    var l := LayoutOf(0, Hour, 0);
    assert l.aligned == HOUR;
    StartUncovered(l, -100 * HOUR, 0, MAX_WINDOWS);
  }

  /** A single instant on the hour: no window meets it. */
  lemma InstantOnTheHourMissed()
    ensures var l := LayoutOf(0, Hour, 0);
            !Covered(l, 0, 0, WindowCount(0, l.aligned, Width(Hour)), 0)
  {
    var l := LayoutOf(0, Hour, 0);
    assert l.aligned == HOUR && Edge(l, 1) == 0;
    assert OnEdge(l, 2, 0);
    StartUncovered(l, 0, 0, 2);
  }

  /**
   For months the count is estimated with 30 days: the range is covered iff the months so
   counted reach back to its start (and it is not one instant on a boundary).
   */
  lemma MonthsCoveredIff(start: int, end: int, offset: int)
    requires start <= end
    ensures var l := LayoutOf(end, Month, offset);
            var n := WindowCount(start, l.aligned, Width(Month));
            && n >= 0
            && ((forall t :: start <= t <= end ==> Covered(l, start, end, n, t)) <==>
                  MonthEdge(MonthAt(end, offset) + 1 - n, offset) <= start && !(start == end && OnEdge(l, n, start)))
  {
    var l := LayoutOf(end, Month, offset);
    LayoutSound(end, Month, offset);
    EdgeMonth(MonthAt(end, offset) + 1, offset);
    Quotient(l.aligned - start, Width(Month));
    CoversIff(l, start, end, WindowCount(start, l.aligned, Width(Month)));
  }

  /** From the last of January 1970 to the last of February: one window is counted, and January's day is missed. */
  lemma FebruaryGap()
    ensures var start, end := 30 * DAY, 58 * DAY;
            var l := LayoutOf(end, Month, 0);
            WindowCount(start, l.aligned, Width(Month)) == 1 && !Covered(l, start, end, 1, start)
  {
    var l := LayoutOf(58 * DAY, Month, 0);
    assert MonthStart(1) == 31 && MonthStart(2) == 59;
    Multiple(58, DAY);
    MonthUnique(58, 1);
    assert l.aligned == 59 * DAY;
    EdgeMonth(2, 0);
    StartUncovered(l, 30 * DAY, 58 * DAY, 1);
  }

  // ---------------------------------------------------------------- values

  /** The text of a reading may or may not parse as a number. */
  datatype Text = NoText | Numeric(v: real) | NotNumeric
  datatype Sample = Sample(ts: int, number: Option<real>, text: Text)

  function NumericValue(s: Sample): Option<real> {
    if s.number.Some? then s.number
    else if s.text.Numeric? then Some(s.text.v)
    else None
  }

  predicate Within(s: Sample, win: Window) {
    win.start <= s.ts <= win.end
  }

  ghost predicate IsLatest(samples: seq<Sample>, win: Window, s: Sample) {
    s in samples && Within(s, win) && forall q :: q in samples && Within(q, win) ==> q.ts <= s.ts
  }

  ghost predicate IsOldest(samples: seq<Sample>, win: Window, s: Sample) {
    s in samples && Within(s, win) && forall q :: q in samples && Within(q, win) ==> s.ts <= q.ts
  }

  /** The value of a window: latest minus oldest, if there are samples and both are numbers. */
  ghost predicate IsDiff(samples: seq<Sample>, win: Window, v: Option<real>) {
    if v.Some? then
      exists a, b :: IsLatest(samples, win, a) && IsOldest(samples, win, b) &&
                     NumericValue(a).Some? && NumericValue(b).Some? &&
                         v.value == NumericValue(a).value - NumericValue(b).value
    else
      forall a, b :: IsLatest(samples, win, a) && IsOldest(samples, win, b) ==>
          NumericValue(a).None? || NumericValue(b).None?
  }

  /** One sample per timestamp: the history table's unique constraint, for one device and key. */
  predicate UniqueTimes(samples: seq<Sample>) {
    forall i, j :: 0 <= i < j < |samples| ==> samples[i].ts != samples[j].ts
  }

  lemma DiffIsUnique(samples: seq<Sample>, win: Window, v: Option<real>, v': Option<real>)
    requires UniqueTimes(samples) && IsDiff(samples, win, v) && IsDiff(samples, win, v')
    ensures v == v'
  {
    forall a, b | a in samples && b in samples && a.ts == b.ts
      ensures a == b
    {
      var i :| 0 <= i < |samples| && samples[i] == a;
      var j :| 0 <= j < |samples| && samples[j] == b;
    }
  }

  method GetDiffValueInTimeWindow(samples: seq<Sample>, win: Window) returns (v: Option<real>)
    requires UniqueTimes(samples)
    ensures IsDiff(samples, win, v)
  {
    var latest, oldest := None, None;
    for i := 0 to |samples|
      invariant latest.Some? <==> oldest.Some?
      invariant latest.None? ==> forall q :: q in samples[..i] ==> !Within(q, win)
      invariant latest.Some? ==> IsLatest(samples[..i], win, latest.value) && IsOldest(samples[..i], win, oldest.value)
    {
      var s := samples[i];
      assert samples[..i + 1] == samples[..i] + [s];
      if Within(s, win) {
        latest := if latest.None? || latest.value.ts < s.ts then Some(s) else latest;
        oldest := if oldest.None? || s.ts < oldest.value.ts then Some(s) else oldest;
      }
    }
    assert samples[..|samples|] == samples;
    v := None;
    if latest.Some? && NumericValue(latest.value).Some? && NumericValue(oldest.value).Some? {
      v := Some(NumericValue(latest.value).value - NumericValue(oldest.value).value);
    } else if latest.Some? {
      forall a, b | IsLatest(samples, win, a) && IsOldest(samples, win, b)
        ensures a == latest.value && b == oldest.value
      {
        var i :| 0 <= i < |samples| && samples[i] == a;
        var j :| 0 <= j < |samples| && samples[j] == latest.value;
        var k :| 0 <= k < |samples| && samples[k] == b;
        var m :| 0 <= m < |samples| && samples[m] == oldest.value;
      }
    }
  }

  // ---------------------------------------------------------------- the whole query

  datatype Row = Row(timestamp: int, value: real)

  predicate Ascending(rows: seq<Row>) {
    forall i, j :: 0 <= i < j < |rows| ==> rows[i].timestamp <= rows[j].timestamp
  }

  predicate StrictlyAscending(rows: seq<Row>) {
    forall i, j :: 0 <= i < j < |rows| ==> rows[i].timestamp < rows[j].timestamp
  }

  predicate StrictlyDescending(rows: seq<Row>) {
    forall i, j :: 0 <= i < j < |rows| ==> rows[i].timestamp > rows[j].timestamp
  }

  method InsertRow(rows: seq<Row>, x: Row) returns (r: seq<Row>)
    requires Ascending(rows)
    ensures Ascending(r) && multiset(r) == multiset(rows) + multiset{x}
  {
    var k := |rows|;
    while k > 0 && rows[k - 1].timestamp > x.timestamp
      invariant 0 <= k <= |rows|
      invariant forall j :: k <= j < |rows| ==> rows[j].timestamp > x.timestamp
    {
      k := k - 1;
    }
    InsertBag(rows, k, x);
    InsertAscending(rows, k, x);
    r := rows[..k] + [x] + rows[k..];
  }

  lemma InsertBag(rows: seq<Row>, k: nat, x: Row)
    requires k <= |rows|
    ensures multiset(rows[..k] + [x] + rows[k..]) == multiset(rows) + multiset{x}
  {
    assert rows == rows[..k] + rows[k..];
  }

  lemma InsertAscending(rows: seq<Row>, k: nat, x: Row)
    requires Ascending(rows) && k <= |rows|
    requires k > 0 ==> rows[k - 1].timestamp <= x.timestamp
    requires forall j :: k <= j < |rows| ==> rows[j].timestamp > x.timestamp
    ensures Ascending(rows[..k] + [x] + rows[k..])
  {
    var r := rows[..k] + [x] + rows[k..];
    assert forall j :: 0 <= j < |r| ==> r[j] == if j < k then rows[j] else if j == k then x else rows[j - 1];
  }

  /** sort.Slice by timestamp: some ascending arrangement of the rows. */
  method SortByTimestamp(rows: seq<Row>) returns (r: seq<Row>)
    ensures Ascending(r) && multiset(r) == multiset(rows)
  {
    r := [];
    for i := 0 to |rows|
      invariant Ascending(r) && multiset(r) == multiset(rows[..i])
    {
      assert rows[..i + 1] == rows[..i] + [rows[i]];
      r := InsertRow(r, rows[i]);
    }
    assert rows[..|rows|] == rows;
  }

  /** Whatever the sort does with equal keys, there are none. */
  lemma SortedStrictly(rows: seq<Row>, r: seq<Row>)
    requires StrictlyDescending(rows) && Ascending(r) && multiset(r) == multiset(rows)
    ensures StrictlyAscending(r)
  {
    forall i, j | 0 <= i < j < |r|
      ensures r[i].timestamp < r[j].timestamp
    {
      if r[i].timestamp == r[j].timestamp {
        assert r[i] in multiset(r) && r[j] in multiset(r);
        assert r[i] in rows && r[j] in rows;
        assert r[i] == r[j];
        assert r == r[..i] + [r[i]] + r[i + 1..j] + [r[j]] + r[j + 1..];
        assert multiset(rows)[r[i]] >= 2;
        OnceOnly(rows, r[i]);
      }
    }
  }

  lemma {:induction false} OnceOnly(rows: seq<Row>, x: Row)
    requires StrictlyDescending(rows)
    ensures multiset(rows)[x] <= 1
  {
    if rows != [] {
      assert rows == [rows[0]] + rows[1..];
      OnceOnly(rows[1..], x);
      if x == rows[0] {
        assert forall i :: 0 <= i < |rows[1..]| ==> rows[1..][i] == rows[i + 1];
        assert x !in rows[1..];
      }
    }
  }

  /** What a call works on: the samples, the range, the windows, and the windows whose query fails. */
  datatype Job = Job(samples: seq<Sample>, start: int, end: int, layout: Layout, down: set<nat>)

  /** The i-th window gives this row: it meets the range, its query succeeds and finds the value. */
  ghost predicate Gives(job: Job, i: nat, r: Row) {
    var win := Nth(job.layout, i);
    && Meets(win, job.start, job.end)
    && i !in job.down
    && r.timestamp == win.start
    && IsDiff(job.samples, Clip(win, job.start, job.end), Some(r.value))
  }

  /** The rows are those the first `n` windows give. */
  ghost predicate Collected(job: Job, n: int, rows: seq<Row>) {
    forall r :: r in rows <==> exists i: nat :: i < n && Gives(job, i, r)
  }

  // ---------------------------------------------------------------- the rows in plain numbers

  /** The reading as a number: the number recorded, or else a text that parses as one. */
  predicate Reads(s: Sample, x: real) {
    s.number == Some(x) || (s.number == None && s.text == Numeric(x))
  }

  /** The latest and the oldest sample between these times, both included. */
  ghost predicate Outermost(samples: seq<Sample>, from: int, to: int, a: Sample, b: Sample) {
    && a in samples && b in samples && from <= b.ts <= a.ts <= to
    && forall q :: q in samples && from <= q.ts <= to ==> b.ts <= q.ts <= a.ts
  }

  /** Between these times: the latest reading less the oldest one. */
  ghost predicate Difference(samples: seq<Sample>, from: int, to: int, v: real) {
    exists a, b, x, y :: Outermost(samples, from, to, a, b) && Reads(a, x) && Reads(b, y) && v == x - y
  }

  lemma OutermostIff(samples: seq<Sample>, win: Window, a: Sample, b: Sample)
    requires a in samples && b in samples
    ensures Outermost(samples, win.start, win.end, a, b) <==>
            IsLatest(samples, win, a) && IsOldest(samples, win, b)
  {
  }

  lemma DifferenceIff(samples: seq<Sample>, win: Window, v: real)
    ensures IsDiff(samples, win, Some(v)) <==> Difference(samples, win.start, win.end, v)
  {
    if IsDiff(samples, win, Some(v)) {
      var a, b :| IsLatest(samples, win, a) && IsOldest(samples, win, b) && NumericValue(a).Some? &&
                  NumericValue(b).Some? && v == NumericValue(a).value - NumericValue(b).value;
      OutermostIff(samples, win, a, b);
      assert Reads(a, NumericValue(a).value) && Reads(b, NumericValue(b).value);
    }
    if Difference(samples, win.start, win.end, v) {
      var a, b, x, y :|
        Outermost(samples, win.start, win.end, a, b) && Reads(a, x) && Reads(b, y) && v == x - y;
      OutermostIff(samples, win, a, b);
      assert NumericValue(a) == Some(x) && NumericValue(b) == Some(y);
    }
  }

  /** The row of a window that meets the range: its start, and the difference inside both. */
  ghost predicate WindowRow(samples: seq<Sample>, start: int, end: int, from: int, to: int, r: Row) {
    && from < end && to > start
    && r.timestamp == from
    && Difference(samples, if from < start then start else from, if to > end then end else to, r.value)
  }

  lemma GivesRow(job: Job, i: nat, r: Row)
    ensures Gives(job, i, r) <==>
              i !in job.down &&
              WindowRow(job.samples, job.start, job.end, Edge(job.layout, i + 1), Edge(job.layout, i), r)
  {
    DifferenceIff(job.samples, Clip(Nth(job.layout, i), job.start, job.end), r.value);
  }

  /** No window past the count meets the range if windows are as wide as their estimate: the cap alone counts. */
  lemma CountedIff(job: Job, rows: seq<Row>, r: Row)
    requires !job.layout.u.Month? && job.layout.aligned == Edge(job.layout, 0)
    requires Collected(job, WindowCount(job.start, job.layout.aligned, Width(job.layout.u)), rows)
    ensures r in rows <==> exists i: nat :: i < MAX_WINDOWS && Gives(job, i, r)
  {
    var l, w := job.layout, Width(job.layout.u);
    var n := WindowCount(job.start, l.aligned, w);
    if i: nat :| i < MAX_WINDOWS && Gives(job, i, r) {
      if i >= n {
        Quotient(l.aligned - job.start, w);
        EdgesFall(l, 0, i);
        BeyondCount(job.start, l.aligned, w, i);
        assert false;
      }
    }
  }

  lemma BeyondCount(start: int, aligned: int, w: int, i: nat)
    requires w > 0 && WindowCount(start, aligned, w) <= i < MAX_WINDOWS
    ensures aligned - i * w <= start
  {
    var x := aligned - start;
    if x >= 0 {
      Quotient(x, w);
      if x / w + 1 < i {
        Integers.Steps(x / w + 1, i, w);
      }
      assert (x / w + 1) * w == x / w * w + w;
    } else {
      assert i * w >= 0;
    }
  }

  /** What a call is given: the samples, the range, the zone, and the windows whose query fails. */
  datatype Given = Given(samples: seq<Sample>, start: int, end: int, offset: int, down: set<nat>)

  /** The i-th window of a fixed width before `aligned`. */
  ghost predicate FixedRow(c: Given, aligned: int, width: int, i: nat, r: Row) {
    i !in c.down && WindowRow(c.samples, c.start, c.end, aligned - (i + 1) * width, aligned - i * width, r)
  }

  /** The first whole step of the zone after the end. */
  predicate StepAfter(c: Given, step: int, aligned: int)
    requires step > 0
  {
    c.end < aligned <= c.end + step && (aligned + c.offset) % step == 0
  }

  /** The rows are those of the hundred windows of this width before that step. */
  ghost predicate FixedRows(c: Given, rows: seq<Row>, step: int, width: int)
    requires step > 0
  {
    exists aligned ::
      StepAfter(c, step, aligned) &&
      forall r :: r in rows <==> exists i: nat :: i < 100 && FixedRow(c, aligned, width, i, r)
  }

  function JobOf(c: Given, u: Unit): Job {
    Job(c.samples, c.start, c.end, LayoutOf(c.end, u, c.offset), c.down)
  }

  function CountOf(c: Given, u: Unit): int {
    WindowCount(c.start, Align(c.end, u, c.offset), Width(u))
  }

  lemma FixedRowIff(c: Given, u: Unit, width: int, i: nat, r: Row)
    requires !u.Month? && !u.Year? && width == Width(u)
    ensures Gives(JobOf(c, u), i, r) <==> FixedRow(c, Align(c.end, u, c.offset), width, i, r)
  {
    GivesRow(JobOf(c, u), i, r);
  }

  lemma RowsOfWidth(c: Given, u: Unit, rows: seq<Row>, width: int)
    requires !u.Month? && !u.Year? && width == Width(u) && Collected(JobOf(c, u), CountOf(c, u), rows)
    ensures FixedRows(c, rows, if u.Hour? then 3600000 else 86400000, width)
  {
    var aligned := Align(c.end, u, c.offset);
    LayoutSound(c.end, u, c.offset);
    AlignIsNext(c.end, u, c.offset);
    forall r
      ensures r in rows <==> exists i: nat :: i < 100 && FixedRow(c, aligned, width, i, r)
    {
      CountedIff(JobOf(c, u), rows, r);
      forall i: nat
        ensures Gives(JobOf(c, u), i, r) <==> FixedRow(c, aligned, width, i, r)
      {
        FixedRowIff(c, u, width, i, r);
      }
    }
    assert StepAfter(c, if u.Hour? then 3600000 else 86400000, aligned);
  }

  lemma RowsFixed(c: Given, u: Unit, rows: seq<Row>)
    requires !u.Month? && !u.Year? && Collected(JobOf(c, u), CountOf(c, u), rows)
    ensures u.Hour? ==> FixedRows(c, rows, 3600000, 3600000)
    ensures u.Day? ==> FixedRows(c, rows, 86400000, 86400000)
    ensures u.Week? ==> FixedRows(c, rows, 86400000, 604800000)
  {
    RowsOfWidth(c, u, rows, Width(u));
  }

  /** The range is long enough for an i-th month before the end of month `m`, at 30 days a month. */
  predicate LongEnough(c: Given, m: int, i: nat) {
    i == 0 || i * 2592000000 <= MonthStart(m + 1) * 86400000 - c.offset - c.start
  }

  /** The i-th month back from month `m`. */
  ghost predicate MonthShown(c: Given, m: int, i: nat, r: Row) {
    i !in c.down && WindowRow(c.samples, c.start, c.end, MonthStart(m - i) * 86400000 - c.offset,
        MonthStart(m + 1 - i) * 86400000 - c.offset, r)
  }

  ghost predicate MonthRow(c: Given, m: int, i: nat, r: Row) {
    LongEnough(c, m, i) && MonthShown(c, m, i, r)
  }

  predicate EndsInMonth(c: Given, m: int) {
    MonthStart(m) * 86400000 <= c.end + c.offset < MonthStart(m + 1) * 86400000
  }

  /** The rows are those of the month of the range's end and the months before it, at most a hundred. */
  ghost predicate MonthRows(c: Given, rows: seq<Row>) {
    exists m ::
      EndsInMonth(c, m) &&
      forall r :: r in rows <==> exists i: nat :: i < 100 && MonthRow(c, m, i, r)
  }

  /** The i-th year back from the one that ends as month `m` begins. */
  ghost predicate YearRow(c: Given, m: int, i: nat, r: Row) {
    && i !in c.down
    && WindowRow(c.samples, c.start, c.end, MonthStart(m - 12 * (i + 1)) * 86400000 - c.offset,
         MonthStart(m - 12 * i) * 86400000 - c.offset, r)
  }

  predicate EndsInYearBefore(c: Given, m: int) {
    m % 12 == 0 && MonthStart(m - 12) * 86400000 <= c.end + c.offset < MonthStart(m) * 86400000
  }

  /** The rows are those of the calendar year of the range's end and the years before it, at most a hundred. */
  ghost predicate YearRows(c: Given, rows: seq<Row>) {
    exists m ::
      EndsInYearBefore(c, m) &&
      forall r :: r in rows <==> exists i: nat :: i < 100 && YearRow(c, m, i, r)
  }

  lemma CountIs(start: int, aligned: int, w: int, i: nat)
    requires w > 0 && start < aligned
    ensures i < WindowCount(start, aligned, w) <==> i < 100 && (i == 0 || i * w <= aligned - start)
  {
    var x := aligned - start;
    Quotient(x, w);
    if i > x / w + 1 {
      Integers.Steps(x / w + 1, i, w);
    } else if i < x / w {
      Integers.Steps(i, x / w, w);
    }
    assert (x / w + 1) * w == x / w * w + w;
  }

  lemma MonthsCounted(c: Given, i: nat)
    requires c.start < Align(c.end, Month, c.offset)
    ensures i < CountOf(c, Month) <==> i < 100 && LongEnough(c, MonthAt(c.end, c.offset), i)
  {
    CountIs(c.start, Align(c.end, Month, c.offset), Width(Month), i);
  }

  lemma MonthGives(c: Given, i: nat, r: Row)
    ensures Gives(JobOf(c, Month), i, r) <==> MonthShown(c, MonthAt(c.end, c.offset), i, r)
  {
    EdgeMonth(MonthAt(c.end, c.offset) + 1, c.offset);
    GivesRow(JobOf(c, Month), i, r);
  }

  /** A range that starts after the last window meets none. */
  lemma LateStart(c: Given, u: Unit, i: nat, r: Row)
    requires c.start >= Align(c.end, u, c.offset)
    ensures !Gives(JobOf(c, u), i, r)
  {
    LayoutSound(c.end, u, c.offset);
    EdgesFall(LayoutOf(c.end, u, c.offset), 0, i);
  }

  lemma MonthRowIff(c: Given, i: nat, r: Row)
    ensures i < CountOf(c, Month) && Gives(JobOf(c, Month), i, r) <==>
            i < 100 && MonthRow(c, MonthAt(c.end, c.offset), i, r)
  {
    MonthGives(c, i, r);
    if c.start < Align(c.end, Month, c.offset) {
      MonthsCounted(c, i);
    } else {
      LateStart(c, Month, i, r);
    }
  }

  lemma RowsByMonth(c: Given, rows: seq<Row>)
    requires Collected(JobOf(c, Month), CountOf(c, Month), rows)
    ensures MonthRows(c, rows)
  {
    var m := MonthAt(c.end, c.offset);
    AlignIsNextMonth(c.end, c.offset);
    assert EndsInMonth(c, m);
    forall r
      ensures r in rows <==> exists i: nat :: i < 100 && MonthRow(c, m, i, r)
    {
      forall i: nat
        ensures i < CountOf(c, Month) && Gives(JobOf(c, Month), i, r) <==> i < 100 && MonthRow(c, m, i, r)
      {
        MonthRowIff(c, i, r);
      }
    }
  }

  lemma YearRowIff(c: Given, i: nat, r: Row)
    ensures Gives(JobOf(c, Year), i, r) <==> YearRow(c, NextYear(MonthAt(c.end, c.offset)), i, r)
  {
    EdgeMonth(NextYear(MonthAt(c.end, c.offset)), c.offset);
    GivesRow(JobOf(c, Year), i, r);
  }

  lemma RowsByYear(c: Given, rows: seq<Row>)
    requires Collected(JobOf(c, Year), CountOf(c, Year), rows)
    ensures YearRows(c, rows)
  {
    var m := NextYear(MonthAt(c.end, c.offset));
    AlignIsNextYear(c.end, c.offset);
    LayoutSound(c.end, Year, c.offset);
    assert EndsInYearBefore(c, m);
    forall r
      ensures r in rows <==> exists i: nat :: i < 100 && YearRow(c, m, i, r)
    {
      CountedIff(JobOf(c, Year), rows, r);
      forall i: nat
        ensures Gives(JobOf(c, Year), i, r) <==> YearRow(c, m, i, r)
      {
        YearRowIff(c, i, r);
      }
    }
  }

  lemma RowsOutright(c: Given, u: Unit, rows: seq<Row>)
    requires Collected(JobOf(c, u), CountOf(c, u), rows)
    ensures u.Hour? ==> FixedRows(c, rows, 3600000, 3600000)
    ensures u.Day? ==> FixedRows(c, rows, 86400000, 86400000)
    ensures u.Week? ==> FixedRows(c, rows, 86400000, 604800000)
    ensures u.Month? ==> MonthRows(c, rows)
    ensures u.Year? ==> YearRows(c, rows)
  {
    match u
    case Month => RowsByMonth(c, rows);
    case Year => RowsByYear(c, rows);
    case _ => RowsFixed(c, u, rows);
  }

  /**
   The loop over the windows and the final sort: one row for every window that has a value. A
   window whose query fails is logged and skipped.
   */
  method DiffRows(c: Given, u: Unit) returns (rows: seq<Row>)
    requires UniqueTimes(c.samples)
    ensures StrictlyAscending(rows)
    ensures Collected(JobOf(c, u), CountOf(c, u), rows)
  {
    var l := LayoutOf(c.end, u, c.offset);
    var n := WindowCount(c.start, l.aligned, Width(u));
    ghost var job := JobOf(c, u);
    var found: seq<Row> := [];
    var i: nat := 0;
    while i < n
      invariant i <= Max(n, 0)
      invariant StrictlyDescending(found)
      invariant forall k :: 0 <= k < |found| ==> found[k].timestamp > Nth(l, i).start
      invariant Collected(job, i, found)
    {
      var win := Nth(l, i);
      EdgeFalls(l, i + 1);
      var v := None;
      if Meets(win, c.start, c.end) && i !in c.down {
        v := GetDiffValueInTimeWindow(c.samples, Clip(win, c.start, c.end));
      }
      CollectedMore(job, i, v, found);
      if v.Some? {
        found := found + [Row(win.start, v.value)];
      }
      i := i + 1;
    }
    rows := SortByTimestamp(found);
    SortedStrictly(found, rows);
    SameRows(found, rows);
  }

  /**
   The whole query: strictly ascending rows, exactly one for each window that meets the range,
   can be queried and has a value, the windows being what the time text says.
   */
  method GetDiffData(c: Given, timeType: string) returns (ok: bool, rows: seq<Row>)
    requires UniqueTimes(c.samples)
    ensures ok <==> timeType in ["hour", "day", "week", "month", "year"]
    ensures StrictlyAscending(rows)
    ensures timeType == "hour" ==> FixedRows(c, rows, 3600000, 3600000)
    ensures timeType == "day" ==> FixedRows(c, rows, 86400000, 86400000)
    ensures timeType == "week" ==> FixedRows(c, rows, 86400000, 604800000)
    ensures timeType == "month" ==> MonthRows(c, rows)
    ensures timeType == "year" ==> YearRows(c, rows)
    ensures !ok ==> rows == []
  {
    var u := ParseUnit(timeType);
    if u.None? {
      return false, [];
    }
    rows := DiffRows(c, u.value);
    RowsOutright(c, u.value, rows);
    ok := true;
  }

  lemma SameRows(a: seq<Row>, b: seq<Row>)
    requires multiset(a) == multiset(b)
    ensures forall r :: r in a <==> r in b
  {
    forall r
      ensures r in a <==> r in b
    {
      assert r in a <==> r in multiset(a);
      assert r in b <==> r in multiset(b);
    }
  }

  /** What the i-th window's query came to. */
  ghost predicate Queried(job: Job, i: nat, v: Option<real>) {
    var win := Nth(job.layout, i);
    if Meets(win, job.start, job.end) && i !in job.down then IsDiff(job.samples, Clip(win, job.start, job.end), v)
    else v == None
  }

  lemma GivesIff(job: Job, i: nat, v: Option<real>, r: Row)
    requires UniqueTimes(job.samples) && Queried(job, i, v)
    ensures Gives(job, i, r) <==> v.Some? && r == Row(Nth(job.layout, i).start, v.value)
  {
    if Gives(job, i, r) {
      DiffIsUnique(job.samples, Clip(Nth(job.layout, i), job.start, job.end), v, Some(r.value));
    }
  }

  lemma CollectedMore(job: Job, i: nat, v: Option<real>, rows: seq<Row>)
    requires UniqueTimes(job.samples) && Collected(job, i, rows) && Queried(job, i, v)
    ensures Collected(job, i + 1, if v.Some? then rows + [Row(Nth(job.layout, i).start, v.value)] else rows)
  {
    var after := if v.Some? then rows + [Row(Nth(job.layout, i).start, v.value)] else rows;
    forall r
      ensures r in after <==> exists k: nat :: k < i + 1 && Gives(job, k, r)
    {
      GivesIff(job, i, v, r);
      assert r in after <==> r in rows || Gives(job, i, r);
      assert r in rows <==> exists k: nat :: k < i && Gives(job, k, r);
    }
  }
}
