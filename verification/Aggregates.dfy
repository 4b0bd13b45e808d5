/**
 Bucketed aggregates of one telemetry series: group by `ts - ts % window`, aggregate each
 bucket, round to four decimals, drop empty buckets, order by bucket.
 */
module Aggregates {
  import opened Prelude
  import opened Integers

  datatype Sample = Sample(ts: int, number: Option<real>)
  datatype Point = Point(ts: int, v: real)
  datatype Row = Row(x: int, x2: int, y: real)
  datatype Answer = Unsupported | Rows(rows: seq<Row>)

  /** SQL's remainder takes the sign of the dividend. */
  function Remainder(a: int, w: int): int
    requires w > 0
  {
    if a >= 0 then a % w else -(-a % w)
  }

  function Bucket(ts: int, w: int): int
    requires w > 0
  {
    ts - Remainder(ts, w)
  }

  /** The samples of the range that carry a number: aggregates skip nulls. */
  function Points(samples: seq<Sample>, start: int, end: int): seq<Point> {
    if samples == [] then []
    else
      var s := samples[0];
      (if start <= s.ts <= end && s.number.Some? then [Point(s.ts, s.number.value)] else []) +
          Points(samples[1..], start, end)
  }

  function InBucket(ps: seq<Point>, w: int, x: int): seq<real>
    requires w > 0
  {
    if ps == [] then []
    else (if Bucket(ps[0].ts, w) == x then [ps[0].v] else []) + InBucket(ps[1..], w, x)
  }

  function Sum(vs: seq<real>): real {
    if vs == [] then 0.0 else vs[0] + Sum(vs[1..])
  }

  function Max(vs: seq<real>): real
    requires vs != []
  {
    if |vs| == 1 || vs[0] >= Max(vs[1..]) then vs[0] else Max(vs[1..])
  }

  function Min(vs: seq<real>): real
    requires vs != []
  {
    if |vs| == 1 || vs[0] <= Min(vs[1..]) then vs[0] else Min(vs[1..])
  }

  /** The cast to NUMERIC(16,4): half away from zero. */
  function Round4(y: real): real {
    if y >= 0.0 then (y * 10000.0 + 0.5).Floor as real / 10000.0 else -((-y * 10000.0 + 0.5).Floor as real / 10000.0)
  }

  /** GROUP BY with ORDER BY: the bucket ids, each once, ascending. */
  function Insert(xs: seq<int>, x: int): seq<int> {
    if xs == [] then [x]
    else if xs[0] == x then xs
    else if x < xs[0] then [x] + xs
    else [xs[0]] + Insert(xs[1..], x)
  }

  function Keys(ps: seq<Point>, w: int): seq<int>
    requires w > 0
  {
    if ps == [] then [] else Insert(Keys(ps[1..], w), Bucket(ps[0].ts, w))
  }

  datatype Function = Avg | SumUp | MaxOf | MinOf | Diff

  function Parse(name: string): Option<Function> {
    if name == "avg" then Some(Avg)
    else if name == "max" then Some(MaxOf)
    else if name == "min" then Some(MinOf)
    else if name == "sum" then Some(SumUp)
    else if name == "diff" then Some(Diff)
    else None
  }

  /** The difference query has no cast. */
  function Aggregate(f: Function, vs: seq<real>): real
    requires vs != []
  {
    match f
    case Avg => Round4(Sum(vs) / |vs| as real)
    case SumUp => Round4(Sum(vs))
    case MaxOf => Round4(Max(vs))
    case MinOf => Round4(Min(vs))
    case Diff => Max(vs) - Min(vs)
  }

  /** One row per listed bucket that has a value. */
  function RowsOf(f: Function, ps: seq<Point>, w: int, xs: seq<int>): seq<Row>
    requires w > 0
  {
    if xs == [] then []
    else
      var vs := InBucket(ps, w, xs[0]);
      (if vs != [] then [Row(xs[0], xs[0] + w, Aggregate(f, vs))] else []) + RowsOf(f, ps, w, xs[1..])
  }

  function AllRows(f: Function, ps: seq<Point>, w: int): seq<Row>
    requires w > 0
  {
    RowsOf(f, ps, w, Keys(ps, w))
  }

  function GetTelemetryDatasAggregate(samples: seq<Sample>, name: string, w: int, start: int, end: int): Answer
    requires w > 0
  {
    if Parse(name).None? then Unsupported
    else Rows(AllRows(Parse(name).value, Points(samples, start, end), w))
  }

  /** What is aggregated: the samples of the range that carry a number, both ends included. */
  lemma {:induction false} PointsExact(samples: seq<Sample>, start: int, end: int)
    ensures forall ts, v :: Point(ts, v) in Points(samples, start, end) <==>
              start <= ts <= end && Sample(ts, Some(v)) in samples
  {
    if samples != [] {
      PointsExact(samples[1..], start, end);
      assert samples == [samples[0]] + samples[1..];
    }
  }

  // ---------------------------------------------------------------- buckets

  predicate Ascending(xs: seq<int>) {
    forall i, j :: 0 <= i < j < |xs| ==> xs[i] < xs[j]
  }

  lemma {:induction false} InsertKeeps(xs: seq<int>, x: int)
    requires Ascending(xs)
    ensures Ascending(Insert(xs, x))
    ensures forall y :: y in Insert(xs, x) <==> y in xs || y == x
  {
    if xs != [] && xs[0] < x {
      var rest := Insert(xs[1..], x);
      assert xs == [xs[0]] + xs[1..];
      assert forall i :: 0 <= i < |xs[1..]| ==> xs[1..][i] == xs[i + 1];
      InsertKeeps(xs[1..], x);
      assert forall y :: y in xs[1..] ==> xs[0] < y;
      AscendingCons(xs[0], rest);
    } else if xs != [] && x < xs[0] {
      assert forall y :: y in xs ==> x < y;
      AscendingCons(x, xs);
    }
  }

  lemma AscendingCons(x: int, xs: seq<int>)
    requires Ascending(xs) && forall y :: y in xs ==> x < y
    ensures Ascending([x] + xs)
  {
    var r := [x] + xs;
    forall i, j | 0 <= i < j < |r|
      ensures r[i] < r[j]
    {
      assert r[j] == xs[j - 1] && xs[j - 1] in xs;
    }
  }

  lemma {:induction false} NonEmptyBucket(ps: seq<Point>, w: int, x: int)
    requires w > 0
    ensures InBucket(ps, w, x) != [] <==> exists p :: p in ps && Bucket(p.ts, w) == x
  {
    if ps != [] {
      NonEmptyBucket(ps[1..], w, x);
      if Bucket(ps[0].ts, w) == x {
        assert ps[0] in ps;
      }
    }
  }

  /** The bucket ids are exactly those of some point, ascending, and no bucket reported is empty. */
  lemma {:induction false} KeysExact(ps: seq<Point>, w: int)
    requires w > 0
    ensures Ascending(Keys(ps, w))
    ensures forall x :: x in Keys(ps, w) <==> exists p :: p in ps && Bucket(p.ts, w) == x
    ensures forall x :: x in Keys(ps, w) ==> InBucket(ps, w, x) != []
  {
    if ps != [] {
      KeysExact(ps[1..], w);
      InsertKeeps(Keys(ps[1..], w), Bucket(ps[0].ts, w));
      assert forall p :: p in ps <==> p == ps[0] || p in ps[1..];
    }
    forall x {
      NonEmptyBucket(ps, w, x);
    }
  }

  lemma BucketIsMultiple(ts: int, w: int)
    requires w > 0
    ensures Bucket(ts, w) % w == 0
  {
    if ts >= 0 {
      assert Bucket(ts, w) == ts / w * w;
      Multiple(ts / w, w);
    } else {
      assert Bucket(ts, w) == -(-ts / w) * w;
      Multiple(-(-ts / w), w);
    }
  }

  /** A timestamp lies in its bucket [x, x + w) exactly when it is non-negative or a bucket edge. */
  lemma InOwnBucketIff(ts: int, w: int)
    requires w > 0
    ensures Bucket(ts, w) <= ts < Bucket(ts, w) + w <==> ts >= 0 || -ts % w == 0
  {
  }

  lemma Apart(x: int, y: int, w: int)
    requires w > 0 && x % w == 0 && y % w == 0 && x < y
    ensures x + w <= y
  {
    assert x == x / w * w && y == y / w * w;
    assert (y / w - x / w) * w == y - x;
    ScaleSign(y / w - x / w, w);
  }

  lemma KeysApart(ps: seq<Point>, w: int, i: int, j: int)
    requires w > 0 && 0 <= i < j < |Keys(ps, w)|
    ensures Keys(ps, w)[i] + w <= Keys(ps, w)[j]
  {
    var xs := Keys(ps, w);
    KeysExact(ps, w);
    assert xs[i] in xs && xs[j] in xs;
    var p :| p in ps && Bucket(p.ts, w) == xs[i];
    var q :| q in ps && Bucket(q.ts, w) == xs[j];
    BucketIsMultiple(p.ts, w);
    BucketIsMultiple(q.ts, w);
    Apart(xs[i], xs[j], w);
  }

  /**
   For non-negative times the rows partition the points: disjoint ascending buckets [x, x2),
   each point in exactly one.
   */
  lemma RowsPartition(f: Function, ps: seq<Point>, w: int)
    requires w > 0 && forall p :: p in ps ==> p.ts >= 0
    ensures var rows := AllRows(f, ps, w);
            && (forall i :: 0 <= i < |rows| ==> rows[i].x2 == rows[i].x + w)
            && (forall i, j :: 0 <= i < j < |rows| ==> rows[i].x2 <= rows[j].x)
            && (forall p :: p in ps ==> exists i :: 0 <= i < |rows| && rows[i].x <= p.ts < rows[i].x2)
  {
    var xs := Keys(ps, w);
    KeysExact(ps, w);
    RowsAt(f, ps, w, xs);
    forall i, j | 0 <= i < j < |xs|
      ensures xs[i] + w <= xs[j]
    {
      KeysApart(ps, w, i, j);
    }
    forall p | p in ps
      ensures exists i :: 0 <= i < |AllRows(f, ps, w)| && AllRows(f, ps, w)[i].x <= p.ts < AllRows(f, ps, w)[i].x2
    {
      InOwnBucketIff(p.ts, w);
      assert Bucket(p.ts, w) in xs;
      var i :| 0 <= i < |xs| && xs[i] == Bucket(p.ts, w);
      assert AllRows(f, ps, w)[i].x == xs[i];
    }
  }

  lemma {:induction false} RowsAt(f: Function, ps: seq<Point>, w: int, xs: seq<int>)
    requires w > 0 && forall x :: x in xs ==> InBucket(ps, w, x) != []
    ensures |RowsOf(f, ps, w, xs)| == |xs|
    ensures forall i :: 0 <= i < |xs| ==>
              InBucket(ps, w, xs[i]) != [] &&
              RowsOf(f, ps, w, xs)[i] == Row(xs[i], xs[i] + w, Aggregate(f, InBucket(ps, w, xs[i])))
  {
    if xs != [] {
      RowsAt(f, ps, w, xs[1..]);
    }
  }

  // ---------------------------------------------------------------- totals

  function Values(ps: seq<Point>): seq<real> {
    if ps == [] then [] else [ps[0].v] + Values(ps[1..])
  }

  function SumOver(ps: seq<Point>, w: int, xs: seq<int>): real
    requires w > 0
  {
    if xs == [] then 0.0 else Sum(InBucket(ps, w, xs[0])) + SumOver(ps, w, xs[1..])
  }

  lemma {:induction false} NoPoints(w: int, xs: seq<int>)
    requires w > 0
    ensures SumOver([], w, xs) == 0.0
  {
    if xs != [] {
      NoPoints(w, xs[1..]);
    }
  }

  /** One more point adds its value to the one listed bucket it belongs to. */
  lemma {:induction false} OneMorePoint(ps: seq<Point>, w: int, xs: seq<int>)
    requires w > 0 && ps != [] && Ascending(xs)
    ensures SumOver(ps, w, xs) == SumOver(ps[1..], w, xs) + if Bucket(ps[0].ts, w) in xs then ps[0].v else 0.0
  {
    if xs != [] {
      assert xs == [xs[0]] + xs[1..];
      OneMorePoint(ps, w, xs[1..]);
      if Bucket(ps[0].ts, w) == xs[0] {
        assert xs[0] !in xs[1..];
        assert InBucket(ps, w, xs[0])[1..] == InBucket(ps[1..], w, xs[0]);
      } else {
        assert InBucket(ps, w, xs[0]) == InBucket(ps[1..], w, xs[0]);
      }
    }
  }

  /** The buckets' exact sums add up to the exact total. */
  lemma {:induction false} BucketsTotal(ps: seq<Point>, w: int, xs: seq<int>)
    requires w > 0 && Ascending(xs) && forall p :: p in ps ==> Bucket(p.ts, w) in xs
    ensures SumOver(ps, w, xs) == Sum(Values(ps))
  {
    if ps == [] {
      NoPoints(w, xs);
    } else {
      BucketsTotal(ps[1..], w, xs);
      OneMorePoint(ps, w, xs);
      assert Values(ps)[1..] == Values(ps[1..]);
    }
  }

  function Reported(rows: seq<Row>): real {
    if rows == [] then 0.0 else rows[0].y + Reported(rows[1..])
  }

  function Abs(x: real): real {
    if x < 0.0 then -x else x
  }

  lemma RoundingError(y: real)
    ensures Abs(Round4(y) - y) <= 0.00005
  {
  }

  lemma {:induction false} ReportedClose(ps: seq<Point>, w: int, xs: seq<int>)
    requires w > 0 && forall x :: x in xs ==> InBucket(ps, w, x) != []
    ensures Abs(Reported(RowsOf(SumUp, ps, w, xs)) - SumOver(ps, w, xs)) <= |xs| as real * 0.00005
  {
    if xs != [] {
      ReportedClose(ps, w, xs[1..]);
      RoundingError(Sum(InBucket(ps, w, xs[0])));
      var rows := RowsOf(SumUp, ps, w, xs);
      assert rows[1..] == RowsOf(SumUp, ps, w, xs[1..]);
    }
  }

  lemma ReportedKeys(ps: seq<Point>, w: int)
    requires w > 0
    ensures Abs(Reported(AllRows(SumUp, ps, w)) - SumOver(ps, w, Keys(ps, w))) <=
            |AllRows(SumUp, ps, w)| as real * 0.00005
  {
    KeysExact(ps, w);
    ReportedClose(ps, w, Keys(ps, w));
    RowsAt(SumUp, ps, w, Keys(ps, w));
  }

  lemma KeysTotal(ps: seq<Point>, w: int)
    requires w > 0
    ensures SumOver(ps, w, Keys(ps, w)) == Sum(Values(ps))
  {
    KeysExact(ps, w);
    BucketsTotal(ps, w, Keys(ps, w));
  }

  /** Reported sums total the true sum of the range, up to half a unit of the last decimal per row. */
  lemma SumsTotal(ps: seq<Point>, w: int)
    requires w > 0
    ensures var rows := AllRows(SumUp, ps, w);
            Abs(Reported(rows) - Sum(Values(ps))) <= |rows| as real * 0.00005
  {
    ReportedKeys(ps, w);
    KeysTotal(ps, w);
  }

  // ---------------------------------------------------------------- extremes

  lemma FloorMonotone(a: real, b: real)
    requires a <= b
    ensures a.Floor <= b.Floor
  {
  }

  /** Half away from zero, on a scaled value. */
  function Nearest(z: real): int {
    if z >= 0.0 then (z + 0.5).Floor else -((-z + 0.5).Floor)
  }

  lemma RoundMonotone(a: real, b: real)
    requires a <= b
    ensures Round4(a) <= Round4(b)
  {
    var x, y := a * 10000.0, b * 10000.0;
    assert Nearest(x) <= Nearest(y) by {
      if x >= 0.0 {
        FloorMonotone(x + 0.5, y + 0.5);
      } else if y < 0.0 {
        FloorMonotone(-y + 0.5, -x + 0.5);
      }
    }
    assert Round4(a) == Nearest(x) as real / 10000.0;
    assert Round4(b) == Nearest(y) as real / 10000.0;
  }

  lemma {:induction false} MaxIs(vs: seq<real>)
    requires vs != []
    ensures Max(vs) in vs && forall v :: v in vs ==> v <= Max(vs)
  {
    assert vs == [vs[0]] + vs[1..];
    if |vs| > 1 {
      MaxIs(vs[1..]);
    }
  }

  lemma {:induction false} MinIs(vs: seq<real>)
    requires vs != []
    ensures Min(vs) in vs && forall v :: v in vs ==> v >= Min(vs)
  {
    assert vs == [vs[0]] + vs[1..];
    if |vs| > 1 {
      MinIs(vs[1..]);
    }
  }

  lemma {:induction false} SumBounds(vs: seq<real>, lo: real, hi: real)
    requires forall v :: v in vs ==> lo <= v <= hi
    ensures |vs| as real * lo <= Sum(vs) <= |vs| as real * hi
  {
    if vs != [] {
      var rest := vs[1..];
      assert forall v :: v in rest ==> v in vs;
      SumBounds(rest, lo, hi);
      assert vs[0] in vs && |vs| == |rest| + 1;
      OneMore(|rest|, lo);
      OneMore(|rest|, hi);
    }
  }

  lemma OneMore(n: nat, x: real)
    ensures (n + 1) as real * x == n as real * x + x
  {
  }

  lemma Quotients(n: real, lo: real, s: real, hi: real)
    requires n > 0.0 && n * lo <= s <= n * hi
    ensures lo <= s / n <= hi
  {
    var q := s / n;
    assert q * n == s;
  }

  /** A bucket's reported average lies between its reported minimum and maximum. */
  lemma AverageBetween(vs: seq<real>)
    requires vs != []
    ensures Aggregate(MinOf, vs) <= Aggregate(Avg, vs) <= Aggregate(MaxOf, vs)
  {
    MinIs(vs);
    MaxIs(vs);
    SumBounds(vs, Min(vs), Max(vs));
    Quotients(|vs| as real, Min(vs), Sum(vs), Max(vs));
    RoundMonotone(Min(vs), Sum(vs) / |vs| as real);
    RoundMonotone(Sum(vs) / |vs| as real, Max(vs));
  }

  lemma {:induction false} InValues(ps: seq<Point>)
    ensures forall v :: v in Values(ps) <==> exists p :: p in ps && p.v == v
  {
    if ps != [] {
      InValues(ps[1..]);
      assert forall p :: p in ps <==> p == ps[0] || p in ps[1..];
    }
  }

  lemma {:induction false} InBucketValues(ps: seq<Point>, w: int, x: int)
    requires w > 0
    ensures forall v :: v in InBucket(ps, w, x) <==> exists p :: p in ps && Bucket(p.ts, w) == x && p.v == v
  {
    if ps != [] {
      InBucketValues(ps[1..], w, x);
      assert forall p :: p in ps <==> p == ps[0] || p in ps[1..];
    }
  }

  /** One bucket's maximum is at most the overall one, and equal to it in the bucket of the point that attains it. */
  lemma BucketMaximum(ps: seq<Point>, w: int, x: int)
    requires w > 0 && ps != [] && InBucket(ps, w, x) != []
    ensures Values(ps) != [] && Max(InBucket(ps, w, x)) <= Max(Values(ps))
    ensures (exists p :: p in ps && Bucket(p.ts, w) == x && p.v == Max(Values(ps))) ==>
              Max(InBucket(ps, w, x)) == Max(Values(ps))
  {
    InValues(ps);
    MaxIs(Values(ps));
    InBucketValues(ps, w, x);
    MaxIs(InBucket(ps, w, x));
    var q :| q in ps && Bucket(q.ts, w) == x && q.v == Max(InBucket(ps, w, x));
    assert q.v in Values(ps);
    if p :| p in ps && Bucket(p.ts, w) == x && p.v == Max(Values(ps)) {
      assert p.v in InBucket(ps, w, x);
    }
  }

  lemma BucketMinimum(ps: seq<Point>, w: int, x: int)
    requires w > 0 && ps != [] && InBucket(ps, w, x) != []
    ensures Values(ps) != [] && Min(InBucket(ps, w, x)) >= Min(Values(ps))
    ensures (exists p :: p in ps && Bucket(p.ts, w) == x && p.v == Min(Values(ps))) ==>
              Min(InBucket(ps, w, x)) == Min(Values(ps))
  {
    InValues(ps);
    MinIs(Values(ps));
    InBucketValues(ps, w, x);
    MinIs(InBucket(ps, w, x));
    var q :| q in ps && Bucket(q.ts, w) == x && q.v == Min(InBucket(ps, w, x));
    assert q.v in Values(ps);
    if p :| p in ps && Bucket(p.ts, w) == x && p.v == Min(Values(ps)) {
      assert p.v in InBucket(ps, w, x);
    }
  }

  /** The largest reported maximum is the rounded overall maximum: it is reported, and no row exceeds it. */
  lemma LargestMaximum(ps: seq<Point>, w: int)
    requires w > 0 && ps != []
    ensures var rows := AllRows(MaxOf, ps, w);
            && Values(ps) != []
            && (forall i :: 0 <= i < |rows| ==> rows[i].y <= Round4(Max(Values(ps))))
            && exists i :: 0 <= i < |rows| && rows[i].y == Round4(Max(Values(ps)))
  {
    var xs, top := Keys(ps, w), Max(Values(ps));
    KeysExact(ps, w);
    RowsAt(MaxOf, ps, w, xs);
    forall i | 0 <= i < |xs|
      ensures AllRows(MaxOf, ps, w)[i].y <= Round4(top)
    {
      BucketMaximum(ps, w, xs[i]);
      RoundMonotone(Max(InBucket(ps, w, xs[i])), top);
    }
    InValues(ps);
    MaxIs(Values(ps));
    var p :| p in ps && p.v == top;
    assert Bucket(p.ts, w) in xs;
    var i :| 0 <= i < |xs| && xs[i] == Bucket(p.ts, w);
    BucketMaximum(ps, w, xs[i]);
    assert AllRows(MaxOf, ps, w)[i].y == Round4(top);
  }

  /** ... and the smallest reported minimum is the rounded overall minimum. */
  lemma SmallestMinimum(ps: seq<Point>, w: int)
    requires w > 0 && ps != []
    ensures var rows := AllRows(MinOf, ps, w);
            && Values(ps) != []
            && (forall i :: 0 <= i < |rows| ==> rows[i].y >= Round4(Min(Values(ps))))
            && exists i :: 0 <= i < |rows| && rows[i].y == Round4(Min(Values(ps)))
  {
    var xs, least := Keys(ps, w), Min(Values(ps));
    KeysExact(ps, w);
    RowsAt(MinOf, ps, w, xs);
    forall i | 0 <= i < |xs|
      ensures AllRows(MinOf, ps, w)[i].y >= Round4(least)
    {
      BucketMinimum(ps, w, xs[i]);
      RoundMonotone(least, Min(InBucket(ps, w, xs[i])));
    }
    InValues(ps);
    MinIs(Values(ps));
    var p :| p in ps && p.v == least;
    assert Bucket(p.ts, w) in xs;
    var i :| 0 <= i < |xs| && xs[i] == Bucket(p.ts, w);
    BucketMinimum(ps, w, xs[i]);
    assert AllRows(MinOf, ps, w)[i].y == Round4(least);
  }

  // ---------------------------------------------------------------- the answers

  /** The numbers recorded in the range, both ends included. */
  function NumbersIn(samples: seq<Sample>, start: int, end: int): seq<real> {
    if samples == [] then []
    else
      var s := samples[0];
      (if start <= s.ts <= end && s.number.Some? then [s.number.value] else []) + NumbersIn(samples[1..], start, end)
  }

  lemma {:induction false} PointValues(samples: seq<Sample>, start: int, end: int)
    ensures Values(Points(samples, start, end)) == NumbersIn(samples, start, end)
  {
    if samples != [] {
      var rest := Points(samples[1..], start, end);
      PointValues(samples[1..], start, end);
      if start <= samples[0].ts <= end && samples[0].number.Some? {
        assert Points(samples, start, end)[1..] == rest;
      } else {
        assert Points(samples, start, end) == rest;
      }
    }
  }

  /** Five names are known, any other is refused. */
  lemma AnsweredIff(samples: seq<Sample>, name: string, w: int, start: int, end: int)
    requires w > 0
    ensures GetTelemetryDatasAggregate(samples, name, w, start, end).Rows? <==>
        name in {"avg", "sum", "max", "min", "diff"}
  {
  }

  /**
   For a range of non-negative times every number of the range lies in exactly one row, and
   rows are disjoint and ascending.
   */
  lemma AnswerPartitions(samples: seq<Sample>, name: string, w: int, start: int, end: int)
    requires w > 0 && start >= 0 && Parse(name).Some?
    ensures var rows := GetTelemetryDatasAggregate(samples, name, w, start, end).rows;
            && (forall i :: 0 <= i < |rows| ==> rows[i].x2 == rows[i].x + w)
            && (forall i, j :: 0 <= i < j < |rows| ==> rows[i].x2 <= rows[j].x)
            && (forall s :: s in samples && start <= s.ts <= end && s.number.Some? ==>
                  exists i :: 0 <= i < |rows| && rows[i].x <= s.ts < rows[i].x2)
  {
    var ps := Points(samples, start, end);
    var rows := AllRows(Parse(name).value, ps, w);
    PointsExact(samples, start, end);
    forall p | p in ps
      ensures p.ts >= 0
    {
      assert p == Point(p.ts, p.v);
    }
    RowsPartition(Parse(name).value, ps, w);
    forall s | s in samples && start <= s.ts <= end && s.number.Some?
      ensures exists i :: 0 <= i < |rows| && rows[i].x <= s.ts < rows[i].x2
    {
      assert s == Sample(s.ts, Some(s.number.value));
      assert Point(s.ts, s.number.value) in ps;
    }
  }

  /** The reported sums total the numbers of the range, up to half a unit of the last decimal per row. */
  lemma AnswerTotals(samples: seq<Sample>, w: int, start: int, end: int)
    requires w > 0
    ensures var rows := GetTelemetryDatasAggregate(samples, "sum", w, start, end).rows;
            Abs(Reported(rows) - Sum(NumbersIn(samples, start, end))) <= |rows| as real * 0.00005
  {
    PointValues(samples, start, end);
    SumsTotal(Points(samples, start, end), w);
  }

  /** The largest reported maximum is the rounded maximum of the range; an empty range has no rows. */
  lemma AnswerMaximum(samples: seq<Sample>, w: int, start: int, end: int)
    requires w > 0
    ensures var rows := GetTelemetryDatasAggregate(samples, "max", w, start, end).rows;
            var all := NumbersIn(samples, start, end);
            if all == [] then rows == []
            else
              && (forall i :: 0 <= i < |rows| ==> rows[i].y <= Round4(Max(all)))
              && exists i :: 0 <= i < |rows| && rows[i].y == Round4(Max(all))
  {
    PointValues(samples, start, end);
    NoValues(Points(samples, start, end));
    if Points(samples, start, end) != [] {
      LargestMaximum(Points(samples, start, end), w);
    }
  }

  lemma AnswerMinimum(samples: seq<Sample>, w: int, start: int, end: int)
    requires w > 0
    ensures var rows := GetTelemetryDatasAggregate(samples, "min", w, start, end).rows;
            var all := NumbersIn(samples, start, end);
            if all == [] then rows == []
            else
              && (forall i :: 0 <= i < |rows| ==> rows[i].y >= Round4(Min(all)))
              && exists i :: 0 <= i < |rows| && rows[i].y == Round4(Min(all))
  {
    PointValues(samples, start, end);
    NoValues(Points(samples, start, end));
    if Points(samples, start, end) != [] {
      SmallestMinimum(Points(samples, start, end), w);
    }
  }

  /** Row by row, the reported averages lie between the reported minima and maxima. */
  lemma AnswerAverages(samples: seq<Sample>, w: int, start: int, end: int)
    requires w > 0
    ensures var avgs := GetTelemetryDatasAggregate(samples, "avg", w, start, end).rows;
            var mins := GetTelemetryDatasAggregate(samples, "min", w, start, end).rows;
            var maxs := GetTelemetryDatasAggregate(samples, "max", w, start, end).rows;
            && |mins| == |avgs| == |maxs|
            && forall i :: 0 <= i < |avgs| ==>
                 mins[i].x == avgs[i].x == maxs[i].x && mins[i].y <= avgs[i].y <= maxs[i].y
  {
    var ps := Points(samples, start, end);
    var xs := Keys(ps, w);
    KeysExact(ps, w);
    RowsAt(Avg, ps, w, xs);
    RowsAt(MinOf, ps, w, xs);
    RowsAt(MaxOf, ps, w, xs);
    forall i | 0 <= i < |xs|
      ensures Aggregate(MinOf, InBucket(ps, w, xs[i])) <= Aggregate(Avg, InBucket(ps, w, xs[i])) <=
              Aggregate(MaxOf, InBucket(ps, w, xs[i]))
    {
      AverageBetween(InBucket(ps, w, xs[i]));
    }
  }

  // ---------------------------------------------------------------- one row

  /** The first and the last time of the bucket `x`: a bucket before 0 ends in its name, and 0 reaches to both sides. */
  function First(x: int, w: int): int {
    if x > 0 then x else x - w + 1
  }

  function End(x: int, w: int): int {
    if x >= 0 then x + w - 1 else x
  }

  lemma SmallRemainder(a: int, w: int)
    requires a >= 0 && w > 0
    ensures 0 <= a % w < w && a % w <= a
  {
    if a < w {
      DivUnique(a, w, 0, a);
    }
  }

  lemma BucketBounds(ts: int, w: int)
    requires w > 0
    ensures if ts >= 0 then 0 <= Bucket(ts, w) <= ts < Bucket(ts, w) + w
            else Bucket(ts, w) - w < ts <= Bucket(ts, w) <= 0
  {
    SmallRemainder(if ts >= 0 then ts else -ts, w);
  }

  lemma BucketIs(ts: int, w: int, x: int)
    requires w > 0 && x % w == 0
    ensures Bucket(ts, w) == x <==> First(x, w) <= ts <= End(x, w)
  {
    BucketBounds(ts, w);
    BucketIsMultiple(ts, w);
    if Bucket(ts, w) < x {
      Apart(Bucket(ts, w), x, w);
    } else if x < Bucket(ts, w) {
      Apart(x, Bucket(ts, w), w);
    }
  }

  function Later(a: int, b: int): int {
    if a < b then b else a
  }

  function Earlier(a: int, b: int): int {
    if a < b then a else b
  }

  /** The numbers recorded in the part of the range that the row named `x` stands for. */
  function RowNumbers(samples: seq<Sample>, w: int, start: int, end: int, x: int): seq<real> {
    NumbersIn(samples, Later(start, First(x, w)), Earlier(end, End(x, w)))
  }

  lemma {:induction false} BucketNumbers(samples: seq<Sample>, w: int, start: int, end: int, x: int)
    requires w > 0 && x % w == 0
    ensures InBucket(Points(samples, start, end), w, x) == RowNumbers(samples, w, start, end, x)
  {
    if samples != [] {
      var s, ps := samples[0], Points(samples, start, end);
      BucketNumbers(samples[1..], w, start, end, x);
      BucketIs(s.ts, w, x);
      if start <= s.ts <= end && s.number.Some? {
        assert ps[0] == Point(s.ts, s.number.value) && ps[1..] == Points(samples[1..], start, end);
      } else {
        assert ps == Points(samples[1..], start, end);
      }
    }
  }

  /** These are the samples' numbers, one for one. */
  ghost predicate Numbers(picked: seq<Sample>, vs: seq<real>) {
    |vs| == |picked| && forall j :: 0 <= j < |picked| ==> picked[j].number == Some(vs[j])
  }

  lemma NumbersCons(s: Sample, picked: seq<Sample>, v: real, vs: seq<real>)
    requires Numbers(picked, vs) && s.number == Some(v)
    ensures Numbers([s] + picked, [v] + vs)
  {
  }

  /** The numbers of a part of the range: one for each of its samples that carries one, in order. */
  lemma {:induction false} NumbersExact(samples: seq<Sample>, start: int, end: int)
    returns (at: seq<nat>, picked: seq<Sample>)
    ensures Selects(samples, at, picked) && Numbers(picked, NumbersIn(samples, start, end))
    ensures forall i :: 0 <= i < |samples| ==>
              (i in at <==> start <= samples[i].ts <= end && samples[i].number.Some?)
  {
    if samples == [] {
      at, picked := [], [];
    } else {
      var s := samples[0];
      var rest, tail := NumbersExact(samples[1..], start, end);
      var head := start <= s.ts <= end && s.number.Some?;
      SelectsMore(samples, rest, tail, head);
      at, picked := WithHead(rest, head), if head then [s] + tail else tail;
      forall i | 0 <= i < |samples|
        ensures i in at <==> start <= samples[i].ts <= end && samples[i].number.Some?
      {
        InWithHead(rest, head, i);
        assert i > 0 ==> samples[1..][i - 1] == samples[i];
      }
      if head {
        NumbersCons(s, tail, s.number.value, NumbersIn(samples[1..], start, end));
      } else {
        assert NumbersIn(samples, start, end) == NumbersIn(samples[1..], start, end);
      }
    }
  }

  /** Rows ascend, and the part of one of them takes in every number of the range. */
  lemma AnswerCovers(samples: seq<Sample>, name: string, w: int, start: int, end: int)
    requires w > 0 && Parse(name).Some?
    ensures var rows := GetTelemetryDatasAggregate(samples, name, w, start, end).rows;
            && (forall i, j :: 0 <= i < j < |rows| ==> rows[i].x < rows[j].x)
            && forall s :: s in samples && start <= s.ts <= end && s.number.Some? ==>
                 exists i :: 0 <= i < |rows| && First(rows[i].x, w) <= s.ts <= End(rows[i].x, w)
  {
    var ps := Points(samples, start, end);
    var rows, xs := AllRows(Parse(name).value, ps, w), Keys(ps, w);
    KeysExact(ps, w);
    RowsAt(Parse(name).value, ps, w, xs);
    PointsExact(samples, start, end);
    forall s | s in samples && start <= s.ts <= end && s.number.Some?
      ensures exists i :: 0 <= i < |rows| && First(rows[i].x, w) <= s.ts <= End(rows[i].x, w)
    {
      assert s == Sample(s.ts, Some(s.number.value));
      assert Point(s.ts, s.number.value) in ps && Bucket(s.ts, w) in xs;
      BucketIsMultiple(s.ts, w);
      BucketIs(s.ts, w, Bucket(s.ts, w));
      var i :| 0 <= i < |xs| && xs[i] == Bucket(s.ts, w);
      assert rows[i].x == xs[i];
    }
  }

  /** Every row of an answer: its bucket's numbers, and the aggregate of them. */
  lemma RowIs(samples: seq<Sample>, name: string, w: int, start: int, end: int, i: nat)
    requires w > 0 && Parse(name).Some?
    requires i < |GetTelemetryDatasAggregate(samples, name, w, start, end).rows|
    ensures var row := GetTelemetryDatasAggregate(samples, name, w, start, end).rows[i];
            var vs := RowNumbers(samples, w, start, end, row.x);
            && row.x % w == 0 && row.x2 == row.x + w
            && vs != [] && row.y == Aggregate(Parse(name).value, vs)
  {
    var ps := Points(samples, start, end);
    var xs := Keys(ps, w);
    KeysExact(ps, w);
    RowsAt(Parse(name).value, ps, w, xs);
    assert xs[i] in xs;
    var p :| p in ps && Bucket(p.ts, w) == xs[i];
    BucketIsMultiple(p.ts, w);
    BucketNumbers(samples, w, start, end, xs[i]);
  }

  lemma Scaled(r: real, q: real, n: real, e: real)
    requires Abs(r - q) <= e && n > 0.0
    ensures Abs(r * n - q * n) <= n * e
  {
    var d := r - q;
    assert d * n == r * n - q * n;
    if d >= 0.0 {
      assert d * n <= e * n;
    } else {
      assert -d * n <= e * n;
    }
  }

  lemma AverageError(r: real, s: real, n: real, e: real)
    requires n > 0.0 && Abs(r - s / n) <= e
    ensures Abs(r * n - s) <= n * e
  {
    Scaled(r, s / n, n, e);
    assert s / n * n == s;
  }

  lemma CloseAverage(vs: seq<real>, y: real)
    requires vs != [] && Abs(y - Sum(vs) / |vs| as real) <= 0.00005
    ensures Abs(y * |vs| as real - Sum(vs)) <= |vs| as real * 0.00005
  {
    AverageError(y, Sum(vs), |vs| as real, 0.00005);
  }

  lemma CloseExtremes(vs: seq<real>)
    requires vs != []
    ensures exists v :: v in vs && (forall u :: u in vs ==> u <= v) && Abs(Aggregate(MaxOf, vs) - v) <= 0.00005
    ensures exists v :: v in vs && (forall u :: u in vs ==> v <= u) && Abs(Aggregate(MinOf, vs) - v) <= 0.00005
    ensures exists v, u :: v in vs && u in vs && (forall t :: t in vs ==> u <= t <= v) && Aggregate(Diff, vs) == v - u
  {
    MaxIs(vs);
    MinIs(vs);
    RoundingError(Max(vs));
    RoundingError(Min(vs));
    assert forall t :: t in vs ==> Min(vs) <= t <= Max(vs);
  }

  /**
   What a reported value says of its row's numbers: a sum or an average is right up to half a
   unit of the fourth decimal (per number, for the average taken times their count), an extreme
   is an extreme number up to as much, and a difference is the largest less the smallest, exactly.
   */
  ghost predicate Says(name: string, y: real, vs: seq<real>) {
    && (name == "sum" ==> Abs(y - Sum(vs)) <= 0.00005)
    && (name == "avg" ==> Abs(y * |vs| as real - Sum(vs)) <= |vs| as real * 0.00005)
    && (name == "max" ==> exists v :: v in vs && (forall u :: u in vs ==> u <= v) && Abs(y - v) <= 0.00005)
    && (name == "min" ==> exists v :: v in vs && (forall u :: u in vs ==> v <= u) && Abs(y - v) <= 0.00005)
    && (name == "diff" ==> exists v, u :: v in vs && u in vs && (forall t :: t in vs ==> u <= t <= v) && y == v - u)
  }

  lemma CloseMean(vs: seq<real>)
    requires vs != []
    ensures Abs(Aggregate(Avg, vs) - Sum(vs) / |vs| as real) <= 0.00005
  {
    RoundingError(Sum(vs) / |vs| as real);
  }

  lemma AverageSays(vs: seq<real>, y: real)
    requires vs != [] && y == Aggregate(Avg, vs)
    ensures Says("avg", y, vs)
  {
    CloseMean(vs);
    CloseAverage(vs, y);
  }

  lemma SumSays(vs: seq<real>)
    requires vs != []
    ensures Says("sum", Aggregate(SumUp, vs), vs)
  {
    RoundingError(Sum(vs));
  }

  lemma ExtremesSay(vs: seq<real>)
    requires vs != []
    ensures Says("max", Aggregate(MaxOf, vs), vs)
    ensures Says("min", Aggregate(MinOf, vs), vs)
    ensures Says("diff", Aggregate(Diff, vs), vs)
  {
    CloseExtremes(vs);
  }

  lemma AggregateSays(name: string, vs: seq<real>, y: real)
    requires vs != [] && Parse(name).Some? && y == Aggregate(Parse(name).value, vs)
    ensures Says(name, y, vs)
  {
    match Parse(name).value
    case Avg => AverageSays(vs, y);
    case SumUp => SumSays(vs);
    case _ => ExtremesSay(vs);
  }

  /** Each row on its own, by the numbers recorded in its part of the range. */
  lemma AnswerRow(samples: seq<Sample>, name: string, w: int, start: int, end: int, i: nat)
    requires w > 0 && Parse(name).Some?
    requires i < |GetTelemetryDatasAggregate(samples, name, w, start, end).rows|
    ensures var row := GetTelemetryDatasAggregate(samples, name, w, start, end).rows[i];
            var vs := RowNumbers(samples, w, start, end, row.x);
            row.x % w == 0 && row.x2 == row.x + w && vs != [] && Says(name, row.y, vs)
  {
    RowIs(samples, name, w, start, end, i);
    var row := GetTelemetryDatasAggregate(samples, name, w, start, end).rows[i];
    AggregateSays(name, RowNumbers(samples, w, start, end, row.x), row.y);
  }

  /** What is rounded has at most four decimals. */
  lemma AnswerDecimals(samples: seq<Sample>, name: string, w: int, start: int, end: int, i: nat)
    requires w > 0 && Parse(name).Some? && name != "diff"
    requires i < |GetTelemetryDatasAggregate(samples, name, w, start, end).rows|
    ensures var y := GetTelemetryDatasAggregate(samples, name, w, start, end).rows[i].y;
            y * 10000.0 == (y * 10000.0).Floor as real
  {
    var row := GetTelemetryDatasAggregate(samples, name, w, start, end).rows[i];
    var vs := RowNumbers(samples, w, start, end, row.x);
    RowIs(samples, name, w, start, end, i);
    match Parse(name).value
    case Avg => FourDecimals(Sum(vs) / |vs| as real);
    case SumUp => FourDecimals(Sum(vs));
    case MaxOf => FourDecimals(Max(vs));
    case MinOf => FourDecimals(Min(vs));
    case Diff =>
  }

  lemma FourDecimals(y: real)
    ensures Round4(y) * 10000.0 == (Round4(y) * 10000.0).Floor as real
  {
    assert Round4(y) * 10000.0 == Nearest(y * 10000.0) as real;
  }

  lemma NoValues(ps: seq<Point>)
    ensures Values(ps) == [] <==> ps == []
  {
  }

  /** The spread of a list is never negative, and zero iff its values are all equal. */
  lemma SpreadZeroIff(vs: seq<real>)
    requires vs != []
    ensures Aggregate(Diff, vs) >= 0.0
    ensures Aggregate(Diff, vs) == 0.0 <==> forall u, v :: u in vs && v in vs ==> u == v
  {
    MaxIs(vs);
    MinIs(vs);
  }

  /** A reported difference is never negative, and zero iff all numbers of the row's bucket are equal. */
  lemma AnswerDifferences(samples: seq<Sample>, w: int, start: int, end: int, i: nat)
    requires w > 0
    requires i < |GetTelemetryDatasAggregate(samples, "diff", w, start, end).rows|
    ensures var row := GetTelemetryDatasAggregate(samples, "diff", w, start, end).rows[i];
            && row.y >= 0.0
            && (row.y == 0.0 <==>
                  forall u, v ::
                    Holds(samples, w, start, end, row.x, u) && Holds(samples, w, start, end, row.x, v) ==> u == v)
  {
    var ps := Points(samples, start, end);
    var xs := Keys(ps, w);
    KeysExact(ps, w);
    RowsAt(Diff, ps, w, xs);
    InBucketValues(ps, w, xs[i]);
    SpreadZeroIff(InBucket(ps, w, xs[i]));
    forall v
      ensures v in InBucket(ps, w, xs[i]) <==> Holds(samples, w, start, end, xs[i], v)
    {
      BucketHolds(samples, w, start, end, xs[i], v);
    }
  }

  /** Some sample of the range carries this number and falls into this bucket. */
  ghost predicate Holds(samples: seq<Sample>, w: int, start: int, end: int, x: int, v: real)
    requires w > 0
  {
    exists ts :: Sample(ts, Some(v)) in samples && start <= ts <= end && Bucket(ts, w) == x
  }

  lemma BucketHolds(samples: seq<Sample>, w: int, start: int, end: int, x: int, v: real)
    requires w > 0
    ensures v in InBucket(Points(samples, start, end), w, x) <==> Holds(samples, w, start, end, x, v)
  {
    var ps := Points(samples, start, end);
    PointsExact(samples, start, end);
    InBucketValues(ps, w, x);
    if v in InBucket(ps, w, x) {
      var p :| p in ps && Bucket(p.ts, w) == x && p.v == v;
      assert p == Point(p.ts, v);
      assert Sample(p.ts, Some(v)) in samples;
    }
    if Holds(samples, w, start, end, x, v) {
      var ts :| Sample(ts, Some(v)) in samples && start <= ts <= end && Bucket(ts, w) == x;
      assert Point(ts, v) in ps;
    }
  }
}
