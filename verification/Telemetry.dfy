/**
 Telemetry ingest: a history table unique on (device, key, ts), and a table of current
 values that is updated row by row after each batch.
 */
module Telemetry {
  import opened Prelude

  datatype Values = Values(number: Option<real>, text: Option<string>, flag: Option<bool>)
  datatype Data = Data(device: string, key: string, ts: int, v: Values, tenant: Option<string>)

  datatype Series = Series(device: string, key: string)
  datatype Point = Point(series: Series, ts: int)
  datatype Stored = Stored(v: Values, tenant: Option<string>)
  datatype Row = Row(series: Series, nanos: int, v: Values, tenant: Option<string>)

  type History = map<Point, Stored>
  type Table = seq<Row>

  function SeriesOf(d: Data): Series {
    Series(d.device, d.key)
  }

  function PointOf(d: Data): Point {
    Point(SeriesOf(d), d.ts)
  }

  // ---------------------------------------------------------------- timestamps

  const NANOS_PER_MS := 1000000
  const TWO_63 := 0x8000_0000_0000_0000
  const TWO_64 := 0x1_0000_0000_0000_0000

  /** Two's complement wrap-around of Go's int64. */
  function Wrap64(x: int): int {
    (x + TWO_63) % TWO_64 - TWO_63
  }

  /** time.Unix(0, ts * 1e6), with ts in milliseconds. */
  function Nanos(ts: int): int {
    Wrap64(ts * NANOS_PER_MS)
  }

  /** Millisecond timestamps whose nanoseconds fit an int64: years 1677 to 2262. */
  predicate Representable(ts: int) {
    -TWO_63 <= ts * NANOS_PER_MS < TWO_63
  }

  lemma NanosExact(s: int, t: int)
    requires Representable(s) && Representable(t)
    ensures Nanos(s) == s * NANOS_PER_MS
    ensures Nanos(s) == Nanos(t) <==> s == t
  {
  }

  /** In plain numbers: a million nanoseconds to the millisecond, modulo 2^64, in the range of an int64. */
  lemma NanosWrap(ts: int)
    ensures -9223372036854775808 <= Nanos(ts) <= 9223372036854775807
    ensures (Nanos(ts) - ts * 1000000) % 18446744073709551616 == 0
    ensures Nanos(ts) == ts * 1000000 <==> -9223372036854775808 <= ts * 1000000 <= 9223372036854775807
  {
    var x := ts * NANOS_PER_MS + TWO_63;
    assert x == x / TWO_64 * TWO_64 + x % TWO_64;
    assert Nanos(ts) - ts * 1000000 == -(x / TWO_64) * TWO_64;
  }

  // ---------------------------------------------------------------- the history table

  predicate DistinctPoints(data: seq<Data>) {
    forall i, j :: 0 <= i < j < |data| ==> PointOf(data[i]) != PointOf(data[j])
  }

  /** Row by row: a new point is inserted, a known one takes the new values and keeps its tenant. */
  function Upsert(h: History, data: seq<Data>): History {
    if data == [] then h
    else
      var d := data[|data| - 1];
      var before := Upsert(h, data[..|data| - 1]);
      var p := PointOf(d);
      before[p := Stored(d.v, if p in before then before[p].tenant else d.tenant)]
  }

  /** Would a plain insert of the whole batch violate the unique constraint? */
  predicate Conflicts(h: History, data: seq<Data>) {
    !DistinctPoints(data) || exists i :: 0 <= i < |data| && PointOf(data[i]) in h
  }

  function InsertAll(h: History, data: seq<Data>): History {
    if data == [] then h
    else
      var d := data[|data| - 1];
      InsertAll(h, data[..|data| - 1])[PointOf(d) := Stored(d.v, d.tenant)]
  }

  lemma {:induction false} UpsertPoints(h: History, data: seq<Data>)
    ensures forall p :: p in Upsert(h, data) <==> p in h || exists i :: 0 <= i < |data| && PointOf(data[i]) == p
    ensures forall p :: p in h && (forall i :: 0 <= i < |data| ==> PointOf(data[i]) != p) ==> Upsert(h, data)[p] == h[p]
    ensures forall p :: p in h ==> Upsert(h, data)[p].tenant == h[p].tenant
  {
    if data != [] {
      var n := |data| - 1;
      UpsertPoints(h, data[..n]);
      assert forall i :: 0 <= i < n ==> data[..n][i] == data[i];
    }
  }

  /** In a batch of distinct points, every point ends with its row's values. */
  lemma {:induction false} UpsertValues(h: History, data: seq<Data>, i: nat)
    requires DistinctPoints(data) && i < |data|
    ensures PointOf(data[i]) in Upsert(h, data) && Upsert(h, data)[PointOf(data[i])].v == data[i].v
    ensures PointOf(data[i]) !in h ==> Upsert(h, data)[PointOf(data[i])].tenant == data[i].tenant
  {
    var n := |data| - 1;
    if i < n {
      assert data[..n][i] == data[i];
      assert PointOf(data[i]) != PointOf(data[n]);
      UpsertValues(h, data[..n], i);
    } else {
      UpsertPoints(h, data[..n]);
      assert forall k :: 0 <= k < n ==> data[..n][k] == data[k];
    }
  }

  /** Where the plain insert goes through it stores what the conflict statement would have stored. */
  lemma {:induction false} InsertIsUpsert(h: History, data: seq<Data>)
    requires !Conflicts(h, data)
    ensures InsertAll(h, data) == Upsert(h, data)
  {
    if data != [] {
      var n := |data| - 1;
      assert forall k :: 0 <= k < n ==> data[..n][k] == data[k];
      InsertIsUpsert(h, data[..n]);
      UpsertPoints(h, data[..n]);
      assert PointOf(data[n]) !in h;
    }
  }

  /**
   What a stored batch leaves: exactly the old points and the batch's, by device, key and time;
   the batch's with its values; a point that was there keeps its tenant, a new one takes its
   row's; all others stay as they are.
   */
  lemma BatchLeaves(h: History, data: seq<Data>)
    requires forall i, j :: 0 <= i < j < |data| ==>
               data[i].device != data[j].device || data[i].key != data[j].key || data[i].ts != data[j].ts
    ensures DistinctPoints(data)
    ensures var h' := Upsert(h, data);
            && (forall i :: 0 <= i < |data| ==>
                  var p := Point(Series(data[i].device, data[i].key), data[i].ts);
                  p in h' && h'[p] == Stored(data[i].v, if p in h then h[p].tenant else data[i].tenant))
            && (forall p :: (forall i :: 0 <= i < |data| ==>
                               p != Point(Series(data[i].device, data[i].key), data[i].ts)) ==>
                  Get(h', p) == Get(h, p))
  {
    forall i, j | 0 <= i < j < |data|
      ensures PointOf(data[i]) != PointOf(data[j])
    {
    }
    UpsertPoints(h, data);
    forall i | 0 <= i < |data| {
      UpsertValues(h, data, i);
    }
    forall p | forall i :: 0 <= i < |data| ==> p != Point(Series(data[i].device, data[i].key), data[i].ts)
      ensures Get(Upsert(h, data), p) == Get(h, p)
    {
      assert forall i :: 0 <= i < |data| ==> PointOf(data[i]) != p;
    }
  }

  /** A batch is refused by the unique constraint alone exactly if two rows name one point. */
  lemma DistinctIff(data: seq<Data>)
    ensures DistinctPoints(data) <==>
              forall i, j :: 0 <= i < j < |data| ==>
                data[i].device != data[j].device || data[i].key != data[j].key || data[i].ts != data[j].ts
  {
    if DistinctPoints(data) {
      forall i, j | 0 <= i < j < |data|
        ensures data[i].device != data[j].device || data[i].key != data[j].key || data[i].ts != data[j].ts
      {
        assert PointOf(data[i]) != PointOf(data[j]);
      }
    }
  }

  // ---------------------------------------------------------------- the conflict statement

  datatype Cell =
    Text(s: string) | Time(t: int) | Number(n: Option<real>) | MaybeText(m: Option<string>) | Flag(b: Option<bool>)

  /** One row's arguments, in column order. */
  function Cells(d: Data): seq<Cell> {
    [Text(d.device), Text(d.key), Time(d.ts), Number(d.v.number), MaybeText(d.v.text), Flag(d.v.flag),
     MaybeText(d.tenant)]
  }

  /** A row of the VALUES list as the database reads it: each $k stands for the k-th argument. */
  function Bound(row: seq<nat>, values: seq<Cell>): Option<Data> {
    if |row| == 7 && forall j :: 0 <= j < 7 ==> 1 <= row[j] <= |values| then
      var c := seq(7, j requires 0 <= j < 7 => values[row[j] - 1]);
      if c[0].Text? && c[1].Text? && c[2].Time? && c[3].Number? && c[4].MaybeText? && c[5].Flag? && c[6].MaybeText? then
        Some(Data(c[0].s, c[1].s, c[2].t, Values(c[3].n, c[4].m, c[5].b), c[6].m))
      else None
    else None
  }

  /** The placeholders bind every row of the batch to its own seven values, and use each argument once. */
  method BuildStatement(data: seq<Data>) returns (rows: seq<seq<nat>>, values: seq<Cell>)
    ensures |rows| == |data| && |values| == 7 * |data|
    ensures forall i :: 0 <= i < |data| ==> Bound(rows[i], values) == Some(data[i])
    ensures forall i, j :: 0 <= i < |data| && 0 <= j < 7 ==> |rows[i]| == 7 && rows[i][j] == 7 * i + j + 1
  {
    rows, values := [], [];
    for i := 0 to |data|
      invariant |rows| == i && |values| == 7 * i
      invariant forall k :: 0 <= k < i ==> rows[k] == Numbers(k)
      invariant forall k :: 0 <= k < i ==> values[7 * k..7 * k + 7] == Cells(data[k])
    {
      var before := values;
      rows := rows + [[i * 7 + 1, i * 7 + 2, i * 7 + 3, i * 7 + 4, i * 7 + 5, i * 7 + 6, i * 7 + 7]];
      values := values + Cells(data[i]);
      forall k | 0 <= k < i + 1
        ensures values[7 * k..7 * k + 7] == Cells(data[k])
      {
        if k < i {
          assert values[7 * k..7 * k + 7] == before[7 * k..7 * k + 7];
        }
      }
    }
    forall i | 0 <= i < |data|
      ensures Bound(rows[i], values) == Some(data[i])
    {
      BindsOwnRow(values, i, data[i]);
    }
  }

  function Numbers(i: nat): seq<nat> {
    [7 * i + 1, 7 * i + 2, 7 * i + 3, 7 * i + 4, 7 * i + 5, 7 * i + 6, 7 * i + 7]
  }

  lemma BindsOwnRow(values: seq<Cell>, i: nat, d: Data)
    requires 7 * i + 7 <= |values| && values[7 * i..7 * i + 7] == Cells(d)
    ensures Bound(Numbers(i), values) == Some(d)
  {
    forall j | 0 <= j < 7
      ensures values[Numbers(i)[j] - 1] == Cells(d)[j]
    {
      assert values[7 * i..7 * i + 7][j] == values[7 * i + j];
    }
  }

  // ---------------------------------------------------------------- the current table

  predicate Unique(t: Table) {
    forall i, j :: 0 <= i < j < |t| ==> t[i].series != t[j].series
  }

  predicate Has(t: Table, s: Series) {
    exists i :: 0 <= i < |t| && t[i].series == s
  }

  function Renew(r: Row, d: Data): Row {
    if r.series == SeriesOf(d) then Row(r.series, Nanos(d.ts), d.v, r.tenant) else r
  }

  /** UPDATE ... WHERE device and key match; if no row matched, INSERT. */
  function Touch(t: Table, d: Data): Table {
    if Has(t, SeriesOf(d)) then seq(|t|, i requires 0 <= i < |t| => Renew(t[i], d))
    else t + [Row(SeriesOf(d), Nanos(d.ts), d.v, d.tenant)]
  }

  function TouchAll(t: Table, data: seq<Data>): Table {
    if data == [] then t else Touch(TouchAll(t, data[..|data| - 1]), data[|data| - 1])
  }

  /** The rows of one series. */
  ghost predicate RowOf(t: Table, r: Row) {
    exists i :: 0 <= i < |t| && t[i] == r
  }

  lemma TouchUnique(t: Table, d: Data)
    requires Unique(t)
    ensures Unique(Touch(t, d)) && Has(Touch(t, d), SeriesOf(d))
  {
    var t' := Touch(t, d);
    if Has(t, SeriesOf(d)) {
      assert forall i :: 0 <= i < |t| ==> t'[i].series == t[i].series;
      var k :| 0 <= k < |t| && t[k].series == SeriesOf(d);
      assert t'[k].series == SeriesOf(d);
    } else {
      assert t'[|t|].series == SeriesOf(d);
    }
  }

  lemma TouchOthers(t: Table, d: Data, r: Row)
    requires r.series != SeriesOf(d)
    ensures RowOf(Touch(t, d), r) <==> RowOf(t, r)
  {
    var t' := Touch(t, d);
    if RowOf(t, r) {
      var i :| 0 <= i < |t| && t[i] == r;
      assert t'[i] == r;
    }
    if RowOf(t', r) {
      var i :| 0 <= i < |t'| && t'[i] == r;
      assert t[i] == r;
    }
  }

  /** The touched series' row: the batch row's time and values, and the tenant first recorded. */
  lemma TouchOwn(t: Table, d: Data, r: Row)
    requires r.series == SeriesOf(d) && RowOf(Touch(t, d), r)
    ensures r.nanos == Nanos(d.ts) && r.v == d.v
    ensures if Has(t, r.series) then exists q: Row :: q.series == r.series && RowOf(t, q) && q.tenant == r.tenant
            else r.tenant == d.tenant
  {
    var t' := Touch(t, d);
    var i :| 0 <= i < |t'| && t'[i] == r;
    if Has(t, SeriesOf(d)) {
      assert r == Renew(t[i], d);
      assert RowOf(t, t[i]) && t[i].tenant == r.tenant;
    }
  }

  lemma TouchRows(t: Table, d: Data)
    requires Unique(t)
    ensures Unique(Touch(t, d)) && Has(Touch(t, d), SeriesOf(d))
    ensures forall r: Row :: r.series != SeriesOf(d) ==> (RowOf(Touch(t, d), r) <==> RowOf(t, r))
    ensures forall r: Row :: r.series == SeriesOf(d) && RowOf(Touch(t, d), r) ==> r.nanos == Nanos(d.ts) && r.v == d.v
  {
    TouchUnique(t, d);
    forall r: Row | r.series != SeriesOf(d) {
      TouchOthers(t, d, r);
    }
    forall r: Row | r.series == SeriesOf(d) && RowOf(Touch(t, d), r)
      ensures r.nanos == Nanos(d.ts) && r.v == d.v
    {
      TouchOwn(t, d, r);
    }
  }

  /** The last row of a series in a batch. */
  function Last(data: seq<Data>, s: Series): Option<Data> {
    if data == [] then None
    else if SeriesOf(data[|data| - 1]) == s then Some(data[|data| - 1])
    else Last(data[..|data| - 1], s)
  }

  /** After the update loop a touched series holds its last row, others what they held; no series has two rows. */
  lemma {:induction false} TouchAllRows(t: Table, data: seq<Data>, s: Series)
    requires Unique(t)
    ensures Unique(TouchAll(t, data))
    ensures Last(data, s).None? ==> forall r: Row :: r.series == s ==> (RowOf(TouchAll(t, data), r) <==> RowOf(t, r))
    ensures Last(data, s).Some? ==>
              && Has(TouchAll(t, data), s)
              && forall r: Row :: r.series == s && RowOf(TouchAll(t, data), r) ==>
                   r.nanos == Nanos(Last(data, s).value.ts) && r.v == Last(data, s).value.v
  {
    if data != [] {
      var n := |data| - 1;
      TouchAllRows(t, data[..n], s);
      TouchRows(TouchAll(t, data[..n]), data[n]);
      if SeriesOf(data[n]) != s {
        HasRows(TouchAll(t, data[..n]), s);
        HasRows(TouchAll(t, data), s);
      }
    }
  }

  lemma HasRows(t: Table, s: Series)
    ensures Has(t, s) <==> exists r: Row :: r.series == s && RowOf(t, r)
  {
    if Has(t, s) {
      var i :| 0 <= i < |t| && t[i].series == s;
      assert RowOf(t, t[i]);
    }
  }

  lemma {:induction false} LastIsLast(data: seq<Data>, s: Series)
    ensures Last(data, s).None? <==> forall i :: 0 <= i < |data| ==> SeriesOf(data[i]) != s
    ensures Last(data, s).Some? ==>
              exists i :: 0 <= i < |data| && data[i] == Last(data, s).value && SeriesOf(data[i]) == s
  {
    if data != [] {
      var n := |data| - 1;
      LastIsLast(data[..n], s);
      assert forall i :: 0 <= i < n ==> data[..n][i] == data[i];
    }
  }

  /** The row is the last one of the batch for this device and key. */
  predicate EndsSeries(data: seq<Data>, i: nat, device: string, key: string) {
    && i < |data| && data[i].device == device && data[i].key == key
    && forall j :: i < j < |data| ==> data[j].device != device || data[j].key != key
  }

  predicate StartsSeries(data: seq<Data>, i: nat, device: string, key: string) {
    && i < |data| && data[i].device == device && data[i].key == key
    && forall j :: 0 <= j < i ==> data[j].device != device || data[j].key != key
  }

  predicate Names(data: seq<Data>, device: string, key: string) {
    exists i :: 0 <= i < |data| && data[i].device == device && data[i].key == key
  }

  lemma {:induction false} LastEnds(data: seq<Data>, device: string, key: string)
    ensures Last(data, Series(device, key)).Some? <==> Names(data, device, key)
    ensures Last(data, Series(device, key)).Some? ==>
              exists i: nat :: EndsSeries(data, i, device, key) && data[i] == Last(data, Series(device, key)).value
  {
    if data != [] {
      var n := |data| - 1;
      LastEnds(data[..n], device, key);
      assert forall i :: 0 <= i < n ==> data[..n][i] == data[i];
      if SeriesOf(data[n]) == Series(device, key) {
        assert EndsSeries(data, n, device, key);
      } else if Names(data[..n], device, key) {
        var i: nat :| EndsSeries(data[..n], i, device, key) && data[..n][i] == Last(data, Series(device, key)).value;
        assert EndsSeries(data, i, device, key);
      }
    }
  }

  /** The tenant of a series is the one first recorded. */
  lemma {:induction false} TouchAllTenants(t: Table, data: seq<Data>, r: Row)
    requires Unique(t) && RowOf(TouchAll(t, data), r)
    ensures Has(t, r.series) ==> exists q: Row :: q.series == r.series && RowOf(t, q) && q.tenant == r.tenant
    ensures !Has(t, r.series) ==>
              exists i: nat :: StartsSeries(data, i, r.series.device, r.series.key) && r.tenant == data[i].tenant
  {
    var s := r.series;
    if data == [] {
      HasRows(t, s);
    } else {
      var n := |data| - 1;
      var mid := TouchAll(t, data[..n]);
      assert forall i :: 0 <= i < n ==> data[..n][i] == data[i];
      TouchAllRows(t, data[..n], s);
      HasRows(t, s);
      HasRows(mid, s);
      LastEnds(data[..n], s.device, s.key);
      if SeriesOf(data[n]) != s {
        TouchOthers(mid, data[n], r);
        TouchAllTenants(t, data[..n], r);
      } else {
        TouchOwn(mid, data[n], r);
        if Has(mid, s) {
          var q: Row :| q.series == s && RowOf(mid, q) && q.tenant == r.tenant;
          TouchAllTenants(t, data[..n], q);
        } else {
          assert StartsSeries(data, n, s.device, s.key);
        }
      }
      if !Has(t, s) {
        if i: nat :| StartsSeries(data[..n], i, s.device, s.key) && r.tenant == data[..n][i].tenant {
          assert StartsSeries(data, i, s.device, s.key);
        }
      }
    }
  }

  /**
   What the update loop leaves in the current table: one row for each device and key that was
   there or that the batch names; a named one holds the time and values of its last row in the
   batch, and the tenant first recorded for it; every other row stays as it is.
   */
  lemma CurrentLeaves(t: Table, data: seq<Data>, device: string, key: string)
    requires Unique(t)
    ensures Unique(TouchAll(t, data))
    ensures Has(TouchAll(t, data), Series(device, key)) <==> Has(t, Series(device, key)) || Names(data, device, key)
    ensures forall r: Row :: r.series == Series(device, key) && !Names(data, device, key) ==>
              (RowOf(TouchAll(t, data), r) <==> RowOf(t, r))
    ensures forall r: Row ::
              r.series == Series(device, key) && Names(data, device, key) && RowOf(TouchAll(t, data), r) ==>
              && (exists i: nat ::
                    EndsSeries(data, i, device, key) && r.nanos == Nanos(data[i].ts) && r.v == data[i].v)
              && if Has(t, r.series) then exists q: Row :: q.series == r.series && RowOf(t, q) && q.tenant == r.tenant
                 else exists i: nat :: StartsSeries(data, i, device, key) && r.tenant == data[i].tenant
  {
    var s := Series(device, key);
    TouchAllRows(t, data, s);
    LastEnds(data, device, key);
    HasRows(t, s);
    HasRows(TouchAll(t, data), s);
    forall r: Row | r.series == s && RowOf(TouchAll(t, data), r) {
      TouchAllTenants(t, data, r);
    }
  }

  // ---------------------------------------------------------------- agreement

  /** The row the ROW_NUMBER query selects for the series: the one with the greatest timestamp. */
  ghost predicate Latest(h: History, s: Series, ts: int) {
    Point(s, ts) in h && forall t :: Point(s, t) in h ==> t <= ts
  }

  predicate InRange(h: History) {
    forall p :: p in h ==> Representable(p.ts)
  }

  /** For one series: the current table holds exactly the row the query selects, once. */
  ghost predicate SeriesInSync(h: History, t: Table, s: Series) {
    && ((exists ts :: Point(s, ts) in h) <==> Has(t, s))
    && forall r: Row :: r.series == s && RowOf(t, r) ==>
         exists ts :: Latest(h, s, ts) && r.nanos == Nanos(ts) && r.v == h[Point(s, ts)].v
  }

  ghost predicate InSync(h: History, t: Table) {
    Unique(t) && InRange(h) && forall s :: SeriesInSync(h, t, s)
  }

  /** The batch's last row for a series is not older than anything known of the series. */
  ghost predicate EndsLatest(h: History, data: seq<Data>, s: Series) {
    Last(data, s).Some? ==>
      && (forall t :: Point(s, t) in h ==> t <= Last(data, s).value.ts)
      && (forall i :: 0 <= i < |data| && SeriesOf(data[i]) == s ==> data[i].ts <= Last(data, s).value.ts)
  }

  /** A batch leaves a series it does not name as it was. */
  lemma SeriesKeptIff(h: History, t: Table, data: seq<Data>, s: Series)
    requires Unique(t) && Last(data, s).None?
    ensures SeriesInSync(Upsert(h, data), TouchAll(t, data), s) <==> SeriesInSync(h, t, s)
  {
    LastIsLast(data, s);
    SamePoints(h, data, s);
    TouchAllRows(t, data, s);
    HasRows(t, s);
    HasRows(TouchAll(t, data), s);
    SameSync(h, Upsert(h, data), t, TouchAll(t, data), s);
    SameSync(Upsert(h, data), h, TouchAll(t, data), t, s);
  }

  lemma SamePoints(h: History, data: seq<Data>, s: Series)
    requires Last(data, s).None?
    ensures forall ts :: Get(Upsert(h, data), Point(s, ts)) == Get(h, Point(s, ts))
  {
    LastIsLast(data, s);
    UpsertPoints(h, data);
  }

  lemma SameSync(h: History, h': History, t: Table, t': Table, s: Series)
    requires forall ts :: Get(h', Point(s, ts)) == Get(h, Point(s, ts))
    requires forall r: Row :: r.series == s ==> (RowOf(t', r) <==> RowOf(t, r))
    requires Has(t', s) <==> Has(t, s)
    ensures SeriesInSync(h, t, s) ==> SeriesInSync(h', t', s)
  {
    assert forall ts :: Point(s, ts) in h' <==> Point(s, ts) in h by {
      forall ts
        ensures Point(s, ts) in h' <==> Point(s, ts) in h
      {
        assert Get(h', Point(s, ts)) == Get(h, Point(s, ts));
      }
    }
    if SeriesInSync(h, t, s) {
      forall r: Row | r.series == s && RowOf(t', r)
        ensures exists ts :: Latest(h', s, ts) && r.nanos == Nanos(ts) && r.v == h'[Point(s, ts)].v
      {
        assert RowOf(t, r);
        var ts :| Latest(h, s, ts) && r.nanos == Nanos(ts) && r.v == h[Point(s, ts)].v;
        assert Get(h', Point(s, ts)) == Get(h, Point(s, ts));
        assert Latest(h', s, ts);
      }
    }
  }

  /** Which points of a series are known once a batch is stored. */
  lemma StoredPoints(h: History, data: seq<Data>, s: Series)
    ensures forall ts :: Point(s, ts) in Upsert(h, data) <==>
              Point(s, ts) in h || exists i :: 0 <= i < |data| && SeriesOf(data[i]) == s && data[i].ts == ts
  {
    UpsertPoints(h, data);
    forall ts
      ensures Point(s, ts) in Upsert(h, data) <==>
              Point(s, ts) in h || exists i :: 0 <= i < |data| && SeriesOf(data[i]) == s && data[i].ts == ts
    {
      if i :| 0 <= i < |data| && SeriesOf(data[i]) == s && data[i].ts == ts {
        assert PointOf(data[i]) == Point(s, ts);
      }
    }
  }

  /**
   An update that reached a series leaves it in agreement iff the last row it wrote is the
   latest one known, with its values.
   */
  lemma ReachedIff(h: History, t: Table, data: seq<Data>, s: Series)
    requires Unique(t) && InRange(h) && Last(data, s).Some? && Representable(Last(data, s).value.ts)
    ensures var last := Last(data, s).value;
            SeriesInSync(h, TouchAll(t, data), s) <==> Latest(h, s, last.ts) && h[Point(s, last.ts)].v == last.v
  {
    var t', last := TouchAll(t, data), Last(data, s).value;
    TouchAllRows(t, data, s);
    HasRows(t', s);
    if SeriesInSync(h, t', s) {
      var r: Row :| r.series == s && RowOf(t', r);
      var ts :| Latest(h, s, ts) && r.nanos == Nanos(ts) && r.v == h[Point(s, ts)].v;
      assert Representable(Point(s, ts).ts);
      NanosExact(last.ts, ts);
    }
  }

  /**
   A series the batch names is in agreement afterwards, whatever it was before, exactly when
   the batch ends with its latest row.
   */
  lemma SeriesTouchedIff(h: History, t: Table, data: seq<Data>, s: Series)
    requires Unique(t) && InRange(h) && DistinctPoints(data) && Last(data, s).Some?
    requires forall i :: 0 <= i < |data| ==> Representable(data[i].ts)
    ensures SeriesInSync(Upsert(h, data), TouchAll(t, data), s) <==> EndsLatest(h, data, s)
  {
    var last := Last(data, s).value;
    LastIsLast(data, s);
    UpsertPoints(h, data);
    StoredPoints(h, data, s);
    var k :| 0 <= k < |data| && data[k] == last && SeriesOf(data[k]) == s;
    UpsertValues(h, data, k);
    ReachedIff(Upsert(h, data), t, data, s);
  }

  /** Every row the batch has for the series is older than the series' latest, or repeats it with the same values. */
  ghost predicate NotOvertaken(h: History, data: seq<Data>, s: Series) {
    Last(data, s).Some? ==>
      exists m :: Latest(h, s, m) && forall i :: 0 <= i < |data| && SeriesOf(data[i]) == s ==>
        data[i].ts < m || (data[i].ts == m && data[i].v == h[Point(s, m)].v)
  }

  /**
   A stored batch whose update did not reach a series leaves it in agreement iff the batch does
   not overtake it; a new series never.
   */
  lemma NotReachedIff(h: History, t: Table, data: seq<Data>, s: Series)
    requires SeriesInSync(h, t, s) && InRange(h) && DistinctPoints(data)
    requires forall i :: 0 <= i < |data| ==> Representable(data[i].ts)
    ensures SeriesInSync(Upsert(h, data), t, s) <==> NotOvertaken(h, data, s)
  {
    LastIsLast(data, s);
    if Last(data, s).None? {
      SamePoints(h, data, s);
      SameSync(h, Upsert(h, data), t, t, s);
    } else {
      StoredPoints(h, data, s);
      HasRows(t, s);
      if Has(t, s) {
        var r: Row :| r.series == s && RowOf(t, r);
        OvertakenRow(h, t, data, s, r);
      }
    }
  }

  lemma OvertakenRow(h: History, t: Table, data: seq<Data>, s: Series, r: Row)
    requires SeriesInSync(h, t, s) && InRange(h) && DistinctPoints(data) && Last(data, s).Some?
    requires forall i :: 0 <= i < |data| ==> Representable(data[i].ts)
    requires r.series == s && RowOf(t, r)
    ensures SeriesInSync(Upsert(h, data), t, s) <==> NotOvertaken(h, data, s)
  {
    var h' := Upsert(h, data);
    var m :| Latest(h, s, m) && r.nanos == Nanos(m) && r.v == h[Point(s, m)].v;
    StoredPoints(h, data, s);
    LatestValue(h, data, s, m);
    if NotOvertaken(h, data, s) {
      assert Latest(h', s, m) && h'[Point(s, m)].v == h[Point(s, m)].v;
      forall q: Row | q.series == s && RowOf(t, q)
        ensures exists ts :: Latest(h', s, ts) && q.nanos == Nanos(ts) && q.v == h'[Point(s, ts)].v
      {
        var ts :| Latest(h, s, ts) && q.nanos == Nanos(ts) && q.v == h[Point(s, ts)].v;
        assert ts == m;
      }
    }
    if SeriesInSync(h', t, s) {
      var ts :| Latest(h', s, ts) && r.nanos == Nanos(ts) && r.v == h'[Point(s, ts)].v;
      assert Representable(Point(s, m).ts);
      StoredInRange(h, data, s, ts);
      NanosExact(m, ts);
    }
  }

  lemma StoredInRange(h: History, data: seq<Data>, s: Series, ts: int)
    requires InRange(h) && Point(s, ts) in Upsert(h, data)
    requires forall i :: 0 <= i < |data| ==> Representable(data[i].ts)
    ensures Representable(ts)
  {
    StoredPoints(h, data, s);
    assert Point(s, ts) in h ==> Representable(Point(s, ts).ts);
  }

  /** What a known point holds once the batch is stored: the batch's values if it repeats the point. */
  lemma LatestValue(h: History, data: seq<Data>, s: Series, m: int)
    requires DistinctPoints(data) && Point(s, m) in h
    ensures Point(s, m) in Upsert(h, data)
    ensures forall i :: 0 <= i < |data| && SeriesOf(data[i]) == s && data[i].ts == m ==>
        Upsert(h, data)[Point(s, m)].v == data[i].v
    ensures (forall i :: 0 <= i < |data| && SeriesOf(data[i]) == s ==> data[i].ts != m) ==>
              Upsert(h, data)[Point(s, m)].v == h[Point(s, m)].v
  {
    UpsertPoints(h, data);
    forall i | 0 <= i < |data| && SeriesOf(data[i]) == s && data[i].ts == m
      ensures Upsert(h, data)[Point(s, m)].v == data[i].v
    {
      UpsertValues(h, data, i);
    }
  }

  /**
   A batch of distinct points keeps the two tables in agreement exactly when, series by series,
   it ends with the latest row.
   */
  lemma BatchInSyncIff(h: History, t: Table, data: seq<Data>)
    requires InSync(h, t) && DistinctPoints(data)
    requires forall i :: 0 <= i < |data| ==> Representable(data[i].ts)
    ensures InSync(Upsert(h, data), TouchAll(t, data)) <==> forall s :: EndsLatest(h, data, s)
  {
    var h', t' := Upsert(h, data), TouchAll(t, data);
    UpsertPoints(h, data);
    assert InRange(h');
    TouchAllRows(t, data, Series("", ""));
    forall s
      ensures SeriesInSync(h', t', s) <==> EndsLatest(h, data, s)
    {
      if Last(data, s).Some? {
        SeriesTouchedIff(h, t, data, s);
      } else {
        SeriesKeptIff(h, t, data, s);
      }
    }
  }

  /** Strictly increasing within the batch and never back behind the history, series by series. */
  ghost predicate Forward(h: History, data: seq<Data>) {
    && (forall i, j :: 0 <= i < j < |data| && SeriesOf(data[i]) == SeriesOf(data[j]) ==> data[i].ts < data[j].ts)
    && (forall i, t :: 0 <= i < |data| && Point(SeriesOf(data[i]), t) in h ==> t <= data[i].ts)
    && (forall i :: 0 <= i < |data| ==> Representable(data[i].ts))
  }

  lemma {:induction false} LastIsGreatest(data: seq<Data>, s: Series)
    requires forall i, j :: 0 <= i < j < |data| && SeriesOf(data[i]) == SeriesOf(data[j]) ==> data[i].ts < data[j].ts
    ensures forall i :: 0 <= i < |data| && SeriesOf(data[i]) == s ==>
        Last(data, s).Some? && data[i].ts <= Last(data, s).value.ts
  {
    if data != [] {
      var n := |data| - 1;
      assert forall i :: 0 <= i < n ==> data[..n][i] == data[i];
      LastIsGreatest(data[..n], s);
    }
  }

  lemma ForwardInSync(h: History, t: Table, data: seq<Data>)
    requires InSync(h, t) && Forward(h, data)
    ensures DistinctPoints(data) && InSync(Upsert(h, data), TouchAll(t, data))
  {
    forall s
      ensures EndsLatest(h, data, s)
    {
      LastIsGreatest(data, s);
      LastIsLast(data, s);
    }
    BatchInSyncIff(h, t, data);
  }

  function After(batches: seq<seq<Data>>): (History, Table) {
    if batches == [] then (map[], [])
    else
      var (h, t) := After(batches[..|batches| - 1]);
      var data := batches[|batches| - 1];
      (Upsert(h, data), TouchAll(t, data))
  }

  ghost predicate AllForward(batches: seq<seq<Data>>) {
    batches != [] ==>
      AllForward(batches[..|batches| - 1]) && Forward(After(batches[..|batches| - 1]).0, batches[|batches| - 1])
  }

  /** Over every run of forward batches the current table mirrors the history. */
  lemma {:induction false} RunInSync(batches: seq<seq<Data>>)
    requires AllForward(batches)
    ensures InSync(After(batches).0, After(batches).1)
  {
    if batches != [] {
      RunInSync(batches[..|batches| - 1]);
      var (h, t) := After(batches[..|batches| - 1]);
      ForwardInSync(h, t, batches[|batches| - 1]);
    }
  }

  /** One round of the two calls: was the batch stored, and how many current rows were updated. */
  datatype Round = Round(data: seq<Data>, stored: bool, rows: nat)

  /** Rows in range; a batch that repeats a point is never stored; the update stops anywhere. */
  predicate Possible(r: Round) {
    && r.rows <= |r.data|
    && (r.stored ==> DistinctPoints(r.data))
    && forall i :: 0 <= i < |r.data| ==> Representable(r.data[i].ts)
  }

  function AfterRounds(rounds: seq<Round>): (History, Table)
    requires forall r :: r in rounds ==> Possible(r)
  {
    if rounds == [] then (map[], [])
    else
      var init, last := rounds[..|rounds| - 1], rounds[|rounds| - 1];
      assert last in rounds && Possible(last);
      var (h, t) := AfterRounds(init);
      (if last.stored then Upsert(h, last.data) else h, TouchAll(t, last.data[..last.rows]))
  }

  lemma {:induction false} RoundsTidy(rounds: seq<Round>)
    requires forall r :: r in rounds ==> Possible(r)
    ensures InRange(AfterRounds(rounds).0) && Unique(AfterRounds(rounds).1)
  {
    if rounds != [] {
      var init, last := rounds[..|rounds| - 1], rounds[|rounds| - 1];
      assert last in rounds && Possible(last);
      RoundsTidy(init);
      UpsertPoints(AfterRounds(init).0, last.data);
      TouchAllRows(AfterRounds(init).1, last.data[..last.rows], Series("", ""));
    }
  }

  /**
   After any rounds, with inserts that failed and updates that stopped half-way, one complete
   round heals every series it names exactly when it ends with the series' latest row, and
   leaves the others in agreement exactly when they were.
   */
  lemma RoundHealsIff(rounds: seq<Round>, data: seq<Data>, s: Series)
    requires (forall r :: r in rounds ==> Possible(r)) && Possible(Round(data, true, |data|))
    ensures var (h, t) := AfterRounds(rounds);
            var (h', t') := AfterRounds(rounds + [Round(data, true, |data|)]);
            SeriesInSync(h', t', s) <==> if Last(data, s).Some? then EndsLatest(h, data, s) else SeriesInSync(h, t, s)
  {
    var last := Round(data, true, |data|);
    RoundsTidy(rounds);
    assert (rounds + [last])[..|rounds|] == rounds;
    assert data[..|data|] == data;
    var (h, t) := AfterRounds(rounds);
    if Last(data, s).Some? {
      SeriesTouchedIff(h, t, data, s);
    } else {
      SeriesKeptIff(h, t, data, s);
    }
  }

  /**
   One more round of any kind, stored or not, its update stopped anywhere. A series the update
   reached agrees iff the last row written for it is the latest known, with its values; one
   it did not reach, and which agreed before, iff the batch was not stored or does not
   overtake the series.
   */
  lemma RoundSyncIff(rounds: seq<Round>, round: Round, s: Series)
    requires (forall r :: r in rounds ==> Possible(r)) && Possible(round)
    ensures var (h, t) := AfterRounds(rounds);
            var (h', t') := AfterRounds(rounds + [round]);
            var last := Last(round.data[..round.rows], s);
            && (last.Some? ==>
                  (SeriesInSync(h', t', s) <==>
                   Latest(h', s, last.value.ts) && h'[Point(s, last.value.ts)].v == last.value.v))
            && (last.None? && SeriesInSync(h, t, s) ==>
                  (SeriesInSync(h', t', s) <==> !round.stored || NotOvertaken(h, round.data, s)))
  {
    RoundsTidy(rounds);
    RoundsTidy(rounds + [round]);
    assert (rounds + [round])[..|rounds|] == rounds;
    var (h, t) := AfterRounds(rounds);
    var h' := if round.stored then Upsert(h, round.data) else h;
    var done := round.data[..round.rows];
    assert AfterRounds(rounds + [round]) == (h', TouchAll(t, done));
    LastIsLast(done, s);
    if Last(done, s).Some? {
      assert Representable(Last(done, s).value.ts);
      ReachedIff(h', t, done, s);
    } else {
      TouchAllRows(t, done, s);
      HasRows(t, s);
      HasRows(TouchAll(t, done), s);
      SameSync(h', h', t, TouchAll(t, done), s);
      SameSync(h', h', TouchAll(t, done), t, s);
      if SeriesInSync(h, t, s) && round.stored {
        NotReachedIff(h, t, round.data, s);
      }
    }
  }

  /** A stored batch whose update stops before the first row is enough to lose the agreement. */
  lemma HalfRoundOutOfSync(d: Data)
    requires Representable(d.ts)
    ensures var (h, t) := AfterRounds([Round([d], true, 0)]); !SeriesInSync(h, t, SeriesOf(d))
  {
    var r := Round([d], true, 0);
    assert [r][..0] == [] && [d][..0] == [];
    assert Point(SeriesOf(d), d.ts) in AfterRounds([r]).0;
  }

  /** If each device keeps one tenant, both tables carry it. */
  ghost predicate Tenanted(h: History, t: Table, tenant: map<string, Option<string>>) {
    && (forall p :: p in h ==> p.series.device in tenant && h[p].tenant == tenant[p.series.device])
    && (forall r: Row :: RowOf(t, r) ==> r.series.device in tenant && r.tenant == tenant[r.series.device])
  }

  lemma {:induction false} BatchTenanted(h: History, t: Table, data: seq<Data>, tenant: map<string, Option<string>>)
    requires Unique(t) && Tenanted(h, t, tenant)
    requires forall d :: d in data ==> d.device in tenant && d.tenant == tenant[d.device]
    ensures Unique(TouchAll(t, data)) && Tenanted(Upsert(h, data), TouchAll(t, data), tenant)
  {
    if data != [] {
      var n := |data| - 1;
      assert data[n] in data && forall d :: d in data[..n] ==> d in data;
      BatchTenanted(h, t, data[..n], tenant);
      var mid := TouchAll(t, data[..n]);
      TouchRows(mid, data[n]);
      forall r: Row | RowOf(TouchAll(t, data), r)
        ensures r.series.device in tenant && r.tenant == tenant[r.series.device]
      {
        if r.series == SeriesOf(data[n]) {
          TouchOwn(mid, data[n], r);
        } else {
          TouchOthers(mid, data[n], r);
        }
      }
    }
  }

  // ---------------------------------------------------------------- the calls

  datatype Fault = Fine | Down

  class Store {
    var history: History
    var current: Table

    constructor ()
      ensures history == map[] && current == []
    {
      history, current := map[], [];
    }

    /**
     Plain insert, then the conflict statement if the unique constraint was hit. One
     statement cannot write a point twice, so a batch that repeats a point is refused.
     `insert` and `fallback` say whether the database fails for another reason.
     */
    method CreateTelemetrDataBatch(data: seq<Data>, insert: Fault, fallback: Fault) returns (ok: bool)
      modifies `history
      ensures history == if ok then Upsert(old(history), data) else old(history)
      ensures insert.Fine? && fallback.Fine? ==> (ok <==> DistinctPoints(data))
      ensures ok ==> insert.Fine? && DistinctPoints(data)
      ensures insert.Fine? && !Conflicts(old(history), data) ==> ok
    {
      if insert.Down? {
        return false;
      }
      if !Conflicts(history, data) {
        InsertIsUpsert(history, data);
        history := InsertAll(history, data);
        return true;
      }
      var rows, values := BuildStatement(data);
      if fallback.Down? {
        return false;
      }
      ok := Execute(rows, values, data);
    }

    /** The database runs the statement on what the placeholders bind, whatever the caller meant. */
    method Execute(rows: seq<seq<nat>>, values: seq<Cell>, ghost data: seq<Data>) returns (ok: bool)
      requires |rows| == |data| && forall i :: 0 <= i < |rows| ==> Bound(rows[i], values) == Some(data[i])
      modifies `history
      ensures ok <==> DistinctPoints(data)
      ensures history == if ok then Upsert(old(history), data) else old(history)
    {
      var bound := seq(|rows|, i requires 0 <= i < |rows| => Bound(rows[i], values).value);
      assert bound == data;
      ok := DistinctPoints(bound);
      if ok {
        history := Upsert(history, bound);
      }
    }

    /** Stops at the first failing row; `failAt` is the first row the database fails on. */
    method UpdateTelemetrDataBatch(data: seq<Data>, failAt: Option<nat>) returns (ok: bool)
      modifies `current
      ensures ok <==> failAt.None? || failAt.value >= |data|
      ensures current == TouchAll(old(current), if ok then data else data[..failAt.value])
    {
      for i := 0 to |data|
        invariant current == TouchAll(old(current), data[..i])
        invariant failAt.Some? ==> i <= failAt.value
      {
        var d := data[i];
        if failAt == Some(i) {
          return false;
        }
        assert data[..i + 1][..i] == data[..i];
        var updated, affected := UpdateRows(current, d);
        if affected == 0 {
          current := current + [Row(SeriesOf(d), Nanos(d.ts), d.v, d.tenant)];
        } else {
          current := updated;
        }
      }
      assert data[..|data|] == data;
      return true;
    }
  }

  /** UPDATE ... WHERE device and key match, with the number of rows affected. */
  method UpdateRows(t: Table, d: Data) returns (r: Table, affected: nat)
    ensures affected > 0 <==> Has(t, SeriesOf(d))
    ensures Has(t, SeriesOf(d)) ==> r == Touch(t, d)
    ensures !Has(t, SeriesOf(d)) ==> r == t
  {
    r, affected := [], 0;
    for i := 0 to |t|
      invariant |r| == i && forall k :: 0 <= k < i ==> r[k] == Renew(t[k], d)
      invariant affected > 0 <==> exists k :: 0 <= k < i && t[k].series == SeriesOf(d)
    {
      r := r + [Renew(t[i], d)];
      if t[i].series == SeriesOf(d) {
        affected := affected + 1;
      }
    }
  }
}
