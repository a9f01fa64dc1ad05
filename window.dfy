/**
  MainWindow's receive path as a class: the serial buffer, the chart series,
  the abscissa counter xVal and the timeout flag are fields that the slots
  update in place. `HandleReadyRead` is the readyRead slot (lines 175-273)
  with the bytes read from the port passed in as `chunk`; `OnTimeout` is the
  lambda connected to the timer (lines 30-34). Each is proved against the
  value-level model: the loop against `Drain`, the plotting against `Plot`
  and `Record`.
*/
module Window {
  import opened Crc16
  import opened ByteArray
  import opened Frame
  import opened History
  import opened FrameSync

  class MainWindow {
    /** Bytes read from the port and not yet consumed. */
    var serialBuffer: seq<Byte>
    /** Abscissa of the next plotted point. */
    var xVal: int
    var timedOut: bool
    /** Whether the 400 ms single-shot timeout timer is running. */
    var timerArmed: bool
    /** seriesList: the points of each of the eleven channels. */
    var series: seq<seq<Point>>
    /** Every sample vector accepted since construction, in order. */
    ghost var accepted: seq<seq<Byte>>

    /**
      The chart shows exactly the accepted sample vectors, plotted two
      abscissa units apart from 0; the timer runs only after some frame was
      accepted and is stopped once it has timed out.
    */
    ghost predicate Valid()
      reads `accepted, `series, `xVal, `timedOut, `timerArmed
    {
      && (forall f <- accepted :: |f| == Channels)
      && series == Record(EmptyChart(), 0, accepted)
      && xVal == 2 * |accepted|
      && (timedOut ==> !timerArmed)
      && (timedOut || timerArmed ==> |accepted| > 0)
    }

    /** The fields the constructor initialises, with the eleven series created one by one. */
    constructor ()
      ensures Valid()
      ensures serialBuffer == [] && xVal == 0 && !timedOut && !timerArmed
      ensures accepted == [] && series == EmptyChart()
    {
      serialBuffer := [];
      xVal := 0;
      timedOut := false;
      timerArmed := false;
      accepted := [];
      var list: seq<seq<Point>> := [];
      for i := 0 to Channels
        invariant |list| == i
        invariant forall j :: 0 <= j < i ==> list[j] == []
      {
        list := list + [[]];
      }
      series := list;
    }

    /**
      The timer's timeout signal. A single-shot timer fires only while it
      runs and stops when it fires; nothing but the flag changes.
    */
    method OnTimeout()
      requires Valid() && timerArmed
      modifies this
      ensures Valid()
      ensures timedOut && !timerArmed
      ensures serialBuffer == old(serialBuffer) && series == old(series)
      ensures xVal == old(xVal) && accepted == old(accepted)
    {
      timerArmed := false;
      timedOut := true;
    }

    /**
      The plotting loop of lines 230-239, on the series list passed in and
      returned: channel i gets the point (xVal, dataBytes[i]), and a series
      that then holds more than 200 points loses its oldest one.
    */
    static method PlotSample(series: seq<seq<Point>>, xVal: int, dataBytes: seq<Byte>) returns (r: seq<seq<Point>>)
      requires |dataBytes| == |series|
      ensures r == Plot(series, xVal, dataBytes)
    {
      r := series;
      for i := 0 to |series|
        invariant |r| == |series|
        invariant forall j :: 0 <= j < i ==> r[j] == AddPoint(series[j], Point(xVal, dataBytes[j] as int))
        invariant forall j :: i <= j < |series| ==> r[j] == series[j]
      {
        var y := dataBytes[i] as int;
        var s := r[i] + [Point(xVal, y)];
        if |s| > MaxPoints {
          s := s[1..];
        }
        r := r[i := s];
      }
    }

    /**
      One pass over a complete window at `headerIndex` (lines 186-271): the
      16 bytes there are checked with crc16_ccitt against the checksum they
      carry; an accepted window restarts the timeout timer, clears the flag,
      plots its samples at xVal and increments xVal twice; either way the
      buffer loses everything up to the end of the window.
    */
    method ConsumeWindow(headerIndex: int) returns (matched: bool)
      requires 0 <= headerIndex && headerIndex + FrameSize <= |serialBuffer|
      requires |series| == Channels
      modifies this
      ensures matched == Accepts(Mid(old(serialBuffer), headerIndex, FrameSize))
      ensures serialBuffer == Remove(old(serialBuffer), 0, headerIndex + FrameSize)
      ensures matched ==> var p := Payload(Mid(old(serialBuffer), headerIndex, FrameSize));
                          && accepted == old(accepted) + [p]
                          && series == Plot(old(series), old(xVal), p)
                          && xVal == old(xVal) + 2
                          && timerArmed && !timedOut
      ensures !matched ==> && accepted == old(accepted) && series == old(series) && xVal == old(xVal)
                           && timerArmed == old(timerArmed) && timedOut == old(timedOut)
    {
      var packet := Mid(serialBuffer, headerIndex, FrameSize);
      var payload := Left(packet, CrcOffset);
      var receivedCrc := ((packet[14] as bv16) << 8) | (packet[15] as bv16);
      var computedCrc := Crc16Ccitt(payload);
      matched := receivedCrc == computedCrc;
      assert receivedCrc == ReceivedCrc(packet);
      assert matched == Accepts(packet);
      if matched {
        timerArmed := true;
        timedOut := false;
        var dataBytes := Mid(packet, PayloadOffset, PayloadSize);
        assert dataBytes == Payload(packet);
        series := PlotSample(series, xVal, dataBytes);
        xVal := xVal + 1;
        xVal := xVal + 1;
        accepted := accepted + [dataBytes];
      }
      serialBuffer := Remove(serialBuffer, 0, headerIndex + FrameSize);
    }

    /**
      One pass of the loop body of the readyRead slot (lines 178-271). With
      no marker in the buffer, everything before its last '$' is dropped
      and the slot stops; with a marker too close to the end, the slot stops
      and waits for more bytes; otherwise the window at the marker is
      consumed. `emitted` is the sample vector plotted by this pass, if any.
    */
    method NextWindow() returns (waiting: bool, ghost emitted: seq<seq<Byte>>)
      requires |serialBuffer| >= FrameSize && |series| == Channels
      modifies this
      ensures Drain(old(serialBuffer)).rest == Drain(serialBuffer).rest
      ensures Drain(old(serialBuffer)).frames == emitted + Drain(serialBuffer).frames
      ensures waiting ==> Drain(serialBuffer) == Outcome(serialBuffer, [])
      ensures !waiting ==> |serialBuffer| < |old(serialBuffer)|
      ensures !waiting ==> serialBuffer == Remove(old(serialBuffer), 0, IndexOf(old(serialBuffer), Marker) + FrameSize)
      ensures |emitted| <= 1 && forall f <- emitted :: |f| == Channels
      ensures accepted == old(accepted) + emitted
      ensures xVal == old(xVal) + 2 * |emitted|
      ensures |emitted| == 0 ==> && series == old(series)
                                 && timedOut == old(timedOut) && timerArmed == old(timerArmed)
      ensures |emitted| == 1 ==> && series == Plot(old(series), old(xVal), emitted[0])
                                 && !timedOut && timerArmed
    {
      var headerIndex := IndexOf(serialBuffer, Marker);
      if headerIndex == -1 {
        DrainNoMarker(serialBuffer);
        var lastDollar := LastIndexOf(serialBuffer, Dollar);
        serialBuffer := Mid(serialBuffer, lastDollar, -1);
        waiting, emitted := true, [];
        assert accepted + emitted == accepted;
      } else if |serialBuffer| - headerIndex < FrameSize {
        DrainWaits(serialBuffer);
        waiting, emitted := true, [];
        assert accepted + emitted == accepted;
      } else {
        DrainStep(serialBuffer, headerIndex);
        ghost var packet := Mid(serialBuffer, headerIndex, FrameSize);
        var matched := ConsumeWindow(headerIndex);
        waiting := false;
        if matched {
          emitted := [Payload(packet)];
        } else {
          emitted := [];
          assert accepted + emitted == accepted;
        }
      }
    }

    /**
      The readyRead slot. The buffer afterwards is what `Drain` leaves of the
      old buffer followed by the new bytes; each accepted frame was plotted in
      turn and advanced xVal by two; the timer was restarted and the flag
      cleared when at least one frame was accepted, and left alone otherwise.
    */
    method HandleReadyRead(chunk: seq<Byte>)
      requires Valid()
      modifies this
      ensures Valid()
      ensures var o := Drain(old(serialBuffer) + chunk);
              && serialBuffer == o.rest
              && accepted == old(accepted) + o.frames
              && series == Record(old(series), old(xVal), o.frames)
              && xVal == old(xVal) + 2 * |o.frames|
              && (|o.frames| == 0 ==> timedOut == old(timedOut) && timerArmed == old(timerArmed))
              && (|o.frames| > 0 ==> !timedOut && timerArmed)
    {
      serialBuffer := serialBuffer + chunk;
      ghost var got := DrainBuffer();
      Handled(old(accepted), old(series), old(xVal), old(timedOut), old(timerArmed), got);
    }

    /**
      The loop of the readyRead slot (lines 177-272) over the buffer as it
      stands: it does what `Drain` describes, plotting every accepted frame.
    */
    method DrainBuffer() returns (ghost got: seq<seq<Byte>>)
      requires |series| == Channels
      modifies this
      ensures Drain(old(serialBuffer)) == Outcome(serialBuffer, got)
      ensures forall f <- got :: |f| == Channels
      ensures accepted == old(accepted) + got
      ensures series == Record(old(series), old(xVal), got)
      ensures xVal == old(xVal) + 2 * |got|
      ensures |got| == 0 ==> timedOut == old(timedOut) && timerArmed == old(timerArmed)
      ensures |got| > 0 ==> !timedOut && timerArmed
    {
      got := [];
      var waiting := false;
      while !waiting && |serialBuffer| >= FrameSize
        invariant waiting ==> Drain(serialBuffer) == Outcome(serialBuffer, [])
        invariant |series| == Channels
        invariant Drain(old(serialBuffer)).rest == Drain(serialBuffer).rest
        invariant Drain(old(serialBuffer)).frames == got + Drain(serialBuffer).frames
        invariant forall f <- got :: |f| == Channels
        invariant accepted == old(accepted) + got
        invariant series == Record(old(series), old(xVal), got)
        invariant xVal == old(xVal) + 2 * |got|
        invariant |got| == 0 ==> timedOut == old(timedOut) && timerArmed == old(timerArmed)
        invariant |got| > 0 ==> !timedOut && timerArmed
        decreases !waiting, |serialBuffer|
      {
        ghost var plotted := series;
        ghost var x := xVal;
        ghost var emitted;
        waiting, emitted := NextWindow();
        RecordExtend(old(series), old(xVal), got, emitted, plotted, x, series);
        AppendAssoc(got, emitted, Drain(serialBuffer).frames);
        AppendAssoc(old(accepted), got, emitted);
        got := got + emitted;
      }
      assert Drain(serialBuffer) == Outcome(serialBuffer, []);
      assert got + [] == got;
    }

    /** Regrouping a concatenation, for the logs the loop extends. */
    static lemma AppendAssoc<T>(a: seq<T>, b: seq<T>, c: seq<T>)
      ensures (a + b) + c == a + (b + c)
    {
    }

    /** Validity after HandleReadyRead, from what its loop establishes and validity before. */
    lemma Handled(before: seq<seq<Byte>>, oldSeries: seq<seq<Point>>, oldX: int,
                  oldTimedOut: bool, oldArmed: bool, got: seq<seq<Byte>>)
      requires forall f <- before :: |f| == Channels
      requires oldSeries == Record(EmptyChart(), 0, before) && oldX == 2 * |before|
      requires oldTimedOut ==> !oldArmed
      requires oldTimedOut || oldArmed ==> |before| > 0
      requires forall f <- got :: |f| == Channels
      requires accepted == before + got
      requires series == Record(oldSeries, oldX, got)
      requires xVal == oldX + 2 * |got|
      requires |got| == 0 ==> timedOut == oldTimedOut && timerArmed == oldArmed
      requires |got| > 0 ==> !timedOut && timerArmed
      ensures Valid()
    {
      Accumulated(before, got, oldSeries, oldX, series);
    }

    /** Plotting one more vector at the abscissa after the last extends the run by it. */
    static lemma RecordSnoc(series: seq<seq<Point>>, x0: int, frames: seq<seq<Byte>>, p: seq<Byte>,
                            current: seq<seq<Point>>, x: int)
      requires forall f <- frames :: |f| == |series|
      requires |p| == |series|
      requires current == Record(series, x0, frames) && x == x0 + 2 * |frames|
      ensures Plot(current, x, p) == Record(series, x0, frames + [p])
    {
      assert (frames + [p])[..|frames|] == frames;
    }

    /** The series after a pass that plotted `emitted` (none or one vector) are the run extended by it. */
    static lemma RecordExtend(series0: seq<seq<Point>>, x0: int, frames: seq<seq<Byte>>, emitted: seq<seq<Byte>>,
                              current: seq<seq<Point>>, x: int, next: seq<seq<Point>>)
      requires forall f <- frames :: |f| == |series0|
      requires |emitted| <= 1 && forall f <- emitted :: |f| == |series0|
      requires current == Record(series0, x0, frames) && x == x0 + 2 * |frames|
      requires |emitted| == 0 ==> next == current
      requires |emitted| == 1 ==> next == Plot(current, x, emitted[0])
      ensures next == Record(series0, x0, frames + emitted)
    {
      if |emitted| == 1 {
        RecordSnoc(series0, x0, frames, emitted[0], current, x);
        assert frames + emitted == frames + [emitted[0]];
      } else {
        assert frames + emitted == frames;
      }
    }

    /** A valid window stays valid after a run of accepted vectors is plotted. */
    static lemma Accumulated(before: seq<seq<Byte>>, got: seq<seq<Byte>>,
                             oldSeries: seq<seq<Point>>, oldX: int, newSeries: seq<seq<Point>>)
      requires forall f <- before :: |f| == Channels
      requires forall f <- got :: |f| == Channels
      requires oldSeries == Record(EmptyChart(), 0, before) && oldX == 2 * |before|
      requires newSeries == Record(oldSeries, oldX, got)
      ensures forall f <- before + got :: |f| == Channels
      ensures newSeries == Record(EmptyChart(), 0, before + got)
    {
      RecordConcat(EmptyChart(), 0, before, got);
    }

    /**
      The chart of a valid window: bounded, time-ordered series, each
      holding the last 200 samples of its channel.
    */
    lemma ValidChart(i: nat)
      requires Valid() && i < Channels
      ensures Chart(series, xVal)
      ensures series[i] == LastN(Points(0, accepted, i), MaxPoints)
    {
      RecordKeepsChart(EmptyChart(), 0, accepted);
      EmptyChartShowsLastPoints(accepted, i);
    }
  }
}
