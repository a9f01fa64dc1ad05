/**
  The eleven chart series that handleReadyRead feeds (seriesList), as
  values. Each accepted frame appends one point per channel at the current
  abscissa and evicts the oldest point of a series that grows past 200
  (lines 230-239); the abscissa xVal then advances by two, because the
  source increments it at line 246 and again at line 266.
*/
module History {
  import opened Crc16

  datatype Point = Point(x: int, y: int)

  const Channels: nat := 11
  /** maxPoints at line 230. */
  const MaxPoints: nat := 200

  /** append(pt) on one series, then remove(0) when it holds more than MaxPoints points. */
  function AddPoint(s: seq<Point>, pt: Point): seq<Point>
  {
    var u := s + [pt];
    if |u| > MaxPoints then u[1..] else u
  }

  /** One accepted sample vector plotted at abscissa `x`: channel `i` gets the point (x, p[i]). */
  function Plot(series: seq<seq<Point>>, x: int, p: seq<Byte>): (r: seq<seq<Point>>)
    requires |p| == |series|
    ensures |r| == |series|
  {
    seq(|series|, i requires 0 <= i < |series| => AddPoint(series[i], Point(x, p[i] as int)))
  }

  /**
    A run of accepted sample vectors plotted one after the other, starting at
    abscissa `x0`; frame `k` is plotted at `x0 + 2 * k`, since xVal is
    incremented twice per accepted frame.
  */
  function Record(series: seq<seq<Point>>, x0: int, frames: seq<seq<Byte>>): (r: seq<seq<Point>>)
    requires forall f <- frames :: |f| == |series|
    ensures |r| == |series|
  {
    if |frames| == 0 then series
    else
      var n := |frames| - 1;
      Plot(Record(series, x0, frames[..n]), x0 + 2 * n, frames[n])
  }

  /** Eleven empty series, as the constructor leaves them. */
  function EmptyChart(): (r: seq<seq<Point>>)
    ensures |r| == Channels
  {
    seq(Channels, i => [])
  }

  // ---------------------------------------------------------------------------
  // What the series hold

  /** The last `n` elements of `s` (all of them when there are fewer). */
  function LastN<T>(s: seq<T>, n: nat): (r: seq<T>)
    ensures |r| <= n
  {
    if |s| <= n then s else s[|s| - n..]
  }

  /** Every point channel `i` would receive from `frames`, in arrival order, without eviction. */
  function Points(x0: int, frames: seq<seq<Byte>>, i: nat): (r: seq<Point>)
    requires forall f <- frames :: i < |f|
    ensures |r| == |frames|
  {
    seq(|frames|, k requires 0 <= k < |frames| => Point(x0 + 2 * k, frames[k][i] as int))
  }

  /** Evicting after each append keeps exactly the most recent MaxPoints points. */
  lemma AddPointKeepsLast(u: seq<Point>, pt: Point)
    ensures AddPoint(LastN(u, MaxPoints), pt) == LastN(u + [pt], MaxPoints)
  {
    if |u| >= MaxPoints {
      assert LastN(u, MaxPoints) + [pt] == (u + [pt])[|u| - MaxPoints..];
      assert (u + [pt])[|u| - MaxPoints..][1..] == (u + [pt])[|u| + 1 - MaxPoints..];
    }
  }

  /**
    History eviction: after any run of accepted frames, each series holds the
    most recent (at most MaxPoints) of its old points followed by the new ones,
    in arrival order.
  */
  lemma {:induction false} RecordIsLastPoints(series: seq<seq<Point>>, x0: int, frames: seq<seq<Byte>>, i: nat)
    requires forall f <- frames :: |f| == |series|
    requires i < |series| && |series[i]| <= MaxPoints
    ensures Record(series, x0, frames)[i] == LastN(series[i] + Points(x0, frames, i), MaxPoints)
  {
    if |frames| == 0 {
      assert series[i] + Points(x0, frames, i) == series[i];
    } else {
      var n := |frames| - 1;
      var front := frames[..n];
      var pt := Point(x0 + 2 * n, frames[n][i] as int);
      var before := series[i] + Points(x0, front, i);
      RecordIsLastPoints(series, x0, front, i);
      PointsSnoc(x0, frames, i);
      AddPointKeepsLast(before, pt);
      assert series[i] + Points(x0, frames, i) == before + [pt];
    }
  }

  lemma PointsSnoc(x0: int, frames: seq<seq<Byte>>, i: nat)
    requires |frames| > 0
    requires forall f <- frames :: i < |f|
    ensures Points(x0, frames, i)
         == Points(x0, frames[..|frames| - 1], i) + [Point(x0 + 2 * (|frames| - 1), frames[|frames| - 1][i] as int)]
  {
  }

  /** Plotting two runs one after the other is plotting their concatenation. */
  lemma {:induction false} RecordConcat(series: seq<seq<Point>>, x0: int, s: seq<seq<Byte>>, t: seq<seq<Byte>>)
    requires forall f <- s + t :: |f| == |series|
    ensures Record(series, x0, s + t) == Record(Record(series, x0, s), x0 + 2 * |s|, t)
    decreases |t|
  {
    if |t| == 0 {
      assert s + t == s;
    } else {
      var n := |t| - 1;
      assert (s + t)[..|s| + n] == s + t[..n];
      RecordConcat(series, x0, s, t[..n]);
    }
  }

  /** From empty series: the chart shows the last MaxPoints samples of every channel. */
  lemma EmptyChartShowsLastPoints(frames: seq<seq<Byte>>, i: nat)
    requires forall f <- frames :: |f| == Channels
    requires i < Channels
    ensures Record(EmptyChart(), 0, frames)[i] == LastN(Points(0, frames, i), MaxPoints)
  {
    RecordIsLastPoints(EmptyChart(), 0, frames, i);
    assert EmptyChart()[i] + Points(0, frames, i) == Points(0, frames, i);
  }

  // ---------------------------------------------------------------------------
  // Chart invariant

  /** A series is bounded by MaxPoints and has strictly increasing abscissae, all below `next`. */
  ghost predicate SeriesOk(s: seq<Point>, next: int)
  {
    && |s| <= MaxPoints
    && (forall j, k :: 0 <= j < k < |s| ==> s[j].x < s[k].x)
    && (forall j :: 0 <= j < |s| ==> s[j].x < next)
  }

  /** Every series of the chart is bounded and ordered, with abscissae below `next`. */
  ghost predicate Chart(series: seq<seq<Point>>, next: int)
  {
    forall i :: 0 <= i < |series| ==> SeriesOk(series[i], next)
  }

  /** Plotting at the next abscissa keeps the chart invariant for the abscissa after it. */
  lemma PlotKeepsChart(series: seq<seq<Point>>, x: int, p: seq<Byte>)
    requires Chart(series, x) && |p| == |series|
    ensures Chart(Plot(series, x, p), x + 2)
  {
    var r: seq<seq<Point>> := Plot(series, x, p);
    forall i | 0 <= i < |series|
      ensures SeriesOk(r[i], x + 2)
    {
      AddPointKeepsSeriesOk(series[i], Point(x, p[i] as int));
    }
  }

  lemma AddPointKeepsSeriesOk(s: seq<Point>, pt: Point)
    requires SeriesOk(s, pt.x)
    ensures SeriesOk(AddPoint(s, pt), pt.x + 2)
  {
    var u := s + [pt];
    assert forall j, k :: 0 <= j < k < |u| ==> u[j].x < u[k].x;
  }

  /** Every run of accepted frames keeps the chart invariant, the abscissa advancing by two per frame. */
  lemma RecordKeepsChart(series: seq<seq<Point>>, x0: int, frames: seq<seq<Byte>>)
    requires Chart(series, x0)
    requires forall f <- frames :: |f| == |series|
    ensures Chart(Record(series, x0, frames), x0 + 2 * |frames|)
  {
    var r := Record(series, x0, frames);
    forall i | 0 <= i < |series|
      ensures SeriesOk(r[i], x0 + 2 * |frames|)
    {
      RecordIsLastPoints(series, x0, frames, i);
      AppendPointsKeepsSeriesOk(series[i], x0, frames, i);
    }
  }

  /** A series followed by the points of later frames, cut to its last MaxPoints, is still ordered and bounded. */
  lemma AppendPointsKeepsSeriesOk(s: seq<Point>, x0: int, frames: seq<seq<Byte>>, i: nat)
    requires SeriesOk(s, x0)
    requires forall f <- frames :: i < |f|
    ensures SeriesOk(LastN(s + Points(x0, frames, i), MaxPoints), x0 + 2 * |frames|)
  {
    var u := s + Points(x0, frames, i);
    assert forall j :: 0 <= j < |u| ==> u[j].x < x0 + 2 * |frames|;
    assert forall j, k :: 0 <= j < k < |u| ==> u[j].x < u[k].x;
  }
}
