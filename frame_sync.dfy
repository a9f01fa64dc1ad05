/**
  The frame synchroniser of handleReadyRead (lines 178-272) as a pure
  function of the buffer: `Drain` runs the while loop to completion on the
  bytes buffered after a chunk was appended, and returns the bytes left in
  the buffer together with the sample vectors of the accepted frames, in
  the order they were accepted. `Feed` chains several calls, one per chunk.
*/
module FrameSync {
  import opened Crc16
  import opened ByteArray
  import opened Frame

  /** The buffer left after a call and the sample vectors accepted during it. */
  datatype Outcome = Outcome(rest: seq<Byte>, frames: seq<seq<Byte>>)

  /**
    The while loop of handleReadyRead. While 16 or more bytes are buffered:
    with no "$DC" in the buffer, keep only the part from the last '$' on
    (all of it when there is none) and stop; with the first "$DC" fewer than
    16 bytes from the end, stop; otherwise test the 16-byte window there,
    keep its samples when it is accepted, and drop everything up to the end
    of the window either way.
    Every accepted frame used 16 bytes of its own, and what is left is a
    suffix of the buffer.
  */
  function Drain(buf: seq<Byte>): (o: Outcome)
    ensures forall p <- o.frames :: |p| == PayloadSize
    decreases |buf|
  {
    if |buf| < FrameSize then Outcome(buf, [])
    else
      var headerIndex := IndexOf(buf, Marker);
      if headerIndex == -1 then
        Outcome(Mid(buf, LastIndexOf(buf, Dollar), -1), [])
      else if |buf| - headerIndex < FrameSize then
        Outcome(buf, [])
      else
        var packet := Mid(buf, headerIndex, FrameSize);
        var tail := Drain(Remove(buf, 0, headerIndex + FrameSize));
        if Accepts(packet) then Outcome(tail.rest, [Payload(packet)] + tail.frames)
        else tail
  }

  /** A buffer without the marker: one pass trims it, and what is left is final. */
  lemma DrainNoMarker(buf: seq<Byte>)
    requires |buf| >= FrameSize && IndexOf(buf, Marker) == -1
    ensures var rest := Mid(buf, LastIndexOf(buf, Dollar), -1);
            Drain(buf) == Outcome(rest, []) && Drain(rest) == Outcome(rest, [])
  {
    DrainIdempotent(buf);
  }

  /** A marker too close to the end: the buffer is kept whole, to wait for more bytes. */
  lemma DrainWaits(buf: seq<Byte>)
    requires |buf| >= FrameSize && IndexOf(buf, Marker) != -1 && |buf| - IndexOf(buf, Marker) < FrameSize
    ensures Drain(buf) == Outcome(buf, [])
  {
  }

  /** A complete window at the first marker: one pass consumes it, emitting its samples when it is accepted. */
  lemma DrainStep(buf: seq<Byte>, h: int)
    requires |buf| >= FrameSize && h == IndexOf(buf, Marker) && h != -1 && |buf| - h >= FrameSize
    ensures Drain(buf).rest == Drain(Remove(buf, 0, h + FrameSize)).rest
    ensures Accepts(Mid(buf, h, FrameSize)) ==>
              Drain(buf).frames == [Payload(Mid(buf, h, FrameSize))] + Drain(Remove(buf, 0, h + FrameSize)).frames
    ensures !Accepts(Mid(buf, h, FrameSize)) ==>
              Drain(buf).frames == Drain(Remove(buf, 0, h + FrameSize)).frames
  {
  }

  /** Consecutive calls of handleReadyRead, one per chunk, starting from buffer `buf`. */
  function Feed(buf: seq<Byte>, chunks: seq<seq<Byte>>): Outcome
    decreases |chunks|
  {
    if |chunks| == 0 then Outcome(buf, [])
    else
      var first := Drain(buf + chunks[0]);
      var later := Feed(first.rest, chunks[1..]);
      Outcome(later.rest, first.frames + later.frames)
  }

  /** All chunks, concatenated. */
  function Concat(chunks: seq<seq<Byte>>): seq<Byte>
  {
    if |chunks| == 0 then [] else chunks[0] + Concat(chunks[1..])
  }

  /** "$DC" occurs nowhere in `s`. */
  ghost predicate NoMarker(s: seq<Byte>)
  {
    forall j :: !OccursAt(s, Marker, j)
  }

  // ---------------------------------------------------------------------------
  // One pass of the loop

  /** Fewer than 16 buffered bytes are left alone. */
  lemma ShortBufferKept(buf: seq<Byte>)
    requires |buf| < FrameSize
    ensures Drain(buf) == Outcome(buf, [])
  {
  }

  /** A marker whose frame has not fully arrived stops the loop with the buffer untouched. */
  lemma IncompleteFrameWaits(buf: seq<Byte>, h: nat)
    requires |buf| >= FrameSize
    requires OccursAt(buf, Marker, h) && |buf| - h < FrameSize
    requires forall j :: 0 <= j < h ==> !OccursAt(buf, Marker, j)
    ensures Drain(buf) == Outcome(buf, [])
  {
  }

  /**
    The window at the first marker is accepted exactly when its carried
    checksum matches; the first h + 16 bytes are dropped whether or not it is.
  */
  lemma WindowConsumed(buf: seq<Byte>, h: nat)
    requires OccursAt(buf, Marker, h) && h + FrameSize <= |buf|
    requires forall j :: 0 <= j < h ==> !OccursAt(buf, Marker, j)
    ensures var tail := Drain(buf[h + FrameSize..]);
            Drain(buf) == if Accepts(buf[h..h + FrameSize])
                          then Outcome(tail.rest, [Payload(buf[h..h + FrameSize])] + tail.frames)
                          else tail
  {
    assert IndexOf(buf, Marker) == h;
    assert Remove(buf, 0, h + FrameSize) == buf[h + FrameSize..];
  }

  /**
    What a call leaves behind is a suffix of the buffer it was given, and
    every emitted frame used up at least a full window of the bytes before it.
  */
  lemma {:induction false} DrainRestIsSuffix(buf: seq<Byte>)
    ensures var o := Drain(buf);
            && |o.rest| <= |buf| && o.rest == buf[|buf| - |o.rest|..]
            && FrameSize * |o.frames| + |o.rest| <= |buf|
    decreases |buf|
  {
    if |buf| >= FrameSize {
      var h := IndexOf(buf, Marker);
      if h == -1 {
        NoMarkerRestIsSuffix(buf);
      } else if |buf| - h >= FrameSize {
        DrainRestIsSuffix(buf[h + FrameSize..]);
        WindowRestIsSuffix(buf, h);
      }
    }
  }

  lemma NoMarkerRestIsSuffix(buf: seq<Byte>)
    requires |buf| >= FrameSize && IndexOf(buf, Marker) == -1
    ensures var o := Drain(buf);
            && o.frames == [] && |o.rest| <= |buf| && o.rest == buf[|buf| - |o.rest|..]
  {
    var d := LastIndexOf(buf, Dollar);
    if d == -1 {
      assert Drain(buf).rest == buf;
    } else {
      assert Drain(buf).rest == buf[d..];
    }
  }

  lemma WindowRestIsSuffix(buf: seq<Byte>, h: int)
    requires |buf| >= FrameSize && h == IndexOf(buf, Marker) && h != -1 && |buf| - h >= FrameSize
    requires var t := Drain(buf[h + FrameSize..]);
             && |t.rest| <= |buf| - h - FrameSize && t.rest == buf[h + FrameSize..][|buf| - h - FrameSize - |t.rest|..]
             && FrameSize * |t.frames| + |t.rest| <= |buf| - h - FrameSize
    ensures var o := Drain(buf);
            && |o.rest| <= |buf| && o.rest == buf[|buf| - |o.rest|..]
            && FrameSize * |o.frames| + |o.rest| <= |buf|
  {
    var suffix := buf[h + FrameSize..];
    WindowConsumed(buf, h);
    var tail := Drain(suffix);
    assert Drain(buf).rest == tail.rest;
    assert |Drain(buf).frames| <= |tail.frames| + 1;
  }

  /**
    With no marker anywhere, nothing is accepted and the buffer keeps only
    its suffix from the last '$', or all of it when it holds no '$'.
  */
  lemma NoMarkerTrimmed(buf: seq<Byte>)
    requires |buf| >= FrameSize && NoMarker(buf)
    ensures Drain(buf).frames == []
    ensures Dollar !in buf ==> Drain(buf).rest == buf
    ensures Dollar in buf ==> var rest := Drain(buf).rest;
              |rest| > 0 && rest[0] == Dollar && forall j :: 0 < j < |rest| ==> rest[j] != Dollar
  {
    assert IndexOf(buf, Marker) == -1;
    var d := LastIndexOf(buf, Dollar);
    if Dollar in buf {
      var i :| 0 <= i < |buf| && buf[i] == Dollar;
      assert d >= i;
      assert Drain(buf).rest == buf[d..];
    }
  }

  // ---------------------------------------------------------------------------
  // Whole calls

  /** Nothing left behind by a call would yield a frame, or change, if the loop ran again. */
  lemma {:induction false} DrainIdempotent(buf: seq<Byte>)
    ensures Drain(Drain(buf).rest) == Outcome(Drain(buf).rest, [])
    decreases |buf|
  {
    if |buf| >= FrameSize {
      var h := IndexOf(buf, Marker);
      if h == -1 {
        NoMarkerTrimmed(buf);
        var rest := Drain(buf).rest;
        if |rest| >= FrameSize {
          NoMarkerInSuffix(buf, |buf| - |rest|);
          TrimmedIsStable(rest);
        }
      } else if |buf| - h >= FrameSize {
        WindowConsumed(buf, h);
        DrainIdempotent(buf[h + FrameSize..]);
      }
    }
  }

  lemma NoMarkerInSuffix(buf: seq<Byte>, d: nat)
    requires NoMarker(buf) && d <= |buf|
    ensures NoMarker(buf[d..])
  {
    var rest := buf[d..];
    forall j | OccursAt(rest, Marker, j)
      ensures false
    {
      assert buf[d + j..d + j + 3] == rest[j..j + 3];
      assert OccursAt(buf, Marker, d + j);
    }
  }

  /**
    Why the loop stopped: fewer than 16 bytes are left, or the first marker
    is fewer than 16 bytes from the end, or there is no marker and no '$'
    after the first byte.
  */
  lemma DrainStopsWhen(buf: seq<Byte>)
    ensures var r := Drain(buf).rest;
            || |r| < FrameSize
            || (IndexOf(r, Marker) != -1 && |r| - IndexOf(r, Marker) < FrameSize)
            || (IndexOf(r, Marker) == -1 && forall j :: 0 < j < |r| ==> r[j] != Dollar)
  {
    var r := Drain(buf).rest;
    DrainIdempotent(buf);
    if |r| >= FrameSize {
      var h := IndexOf(r, Marker);
      if h == -1 {
        DrainNoMarker(r);
        TrimKeepsAll(r);
      } else if |r| - h >= FrameSize {
        DrainStep(r, h);
        DrainRestIsSuffix(Remove(r, 0, h + FrameSize));
        assert false;
      }
    }
  }

  /** Keeping the part from the last '$' on keeps everything only when no '$' follows the first byte. */
  lemma TrimKeepsAll(r: seq<Byte>)
    requires Mid(r, LastIndexOf(r, Dollar), -1) == r
    ensures forall j :: 0 < j < |r| ==> r[j] != Dollar
  {
    var d := LastIndexOf(r, Dollar);
    assert d <= 0;
  }

  /** A buffer with no marker and no '$' after its first byte is left as it is. */
  lemma TrimmedIsStable(rest: seq<Byte>)
    requires |rest| >= FrameSize && NoMarker(rest)
    requires forall j :: 0 < j < |rest| ==> rest[j] != Dollar
    ensures Drain(rest) == Outcome(rest, [])
  {
    assert IndexOf(rest, Marker) == -1;
  }

  /** Garbage with no marker, followed by a well-formed frame, in one buffer: exactly that frame's samples come out and nothing is left. */
  lemma ResyncAfterGarbage(g: seq<Byte>, p: seq<Byte>)
    requires |p| == PayloadSize && NoMarker(g)
    ensures Drain(g + Encode(p)) == Outcome([], [p])
  {
    var w := Encode(p);
    var buf := g + w;
    var h := |g|;
    assert buf[h..h + 3] == w[..3] == Marker;
    assert OccursAt(buf, Marker, h);
    forall j | 0 <= j < h
      ensures !OccursAt(buf, Marker, j)
    {
      if j + 3 <= h {
        assert buf[j..j + 3] == g[j..j + 3];
        assert !OccursAt(g, Marker, j);
      } else {
        assert buf[h] == Dollar;
        assert buf[j..j + 3][h - j] == Dollar;
      }
    }
    assert buf[h..h + FrameSize] == w;
    assert buf[h + FrameSize..] == [];
    EncodeAccepted(p);
    WindowConsumed(buf, h);
  }

  /** Round trip: a well-formed frame fed to an empty buffer yields its eleven samples and leaves the buffer empty. */
  lemma RoundTrip(p: seq<Byte>)
    requires |p| == PayloadSize
    ensures Drain(Encode(p)) == Outcome([], [p])
  {
    assert [] + Encode(p) == Encode(p);
    ResyncAfterGarbage([], p);
  }

  /** A frame corrupted in any one byte, fed on its own, yields nothing. */
  lemma CorruptedFrameNotEmitted(p: seq<Byte>, v: seq<Byte>, k: nat)
    requires |p| == PayloadSize && |v| == FrameSize && k < FrameSize
    requires v[k] != Encode(p)[k]
    requires forall i :: 0 <= i < FrameSize && i != k ==> v[i] == Encode(p)[i]
    ensures Drain(v).frames == []
  {
    var h := IndexOf(v, Marker);
    if h == 0 {
      EncodeAccepted(p);
      CorruptedWindowRejected(Encode(p), v, k);
      assert Mid(v, 0, FrameSize) == v;
    }
  }

  /**
    A frame that starts inside a rejected window is lost: the loop skips the
    whole 16-byte window, including the start of the frame after the marker.
  */
  lemma OverlappedFrameLost(p: seq<Byte>)
    requires |p| == PayloadSize
    requires !Accepts((Marker + Encode(p))[..FrameSize])
    ensures Drain(Marker + Encode(p)) == Outcome(Encode(p)[13..], [])
  {
    var buf := Marker + Encode(p);
    assert OccursAt(buf, Marker, 0);
    RejectedLeadingWindow(buf);
    assert buf[FrameSize..] == Encode(p)[13..];
  }

  /** A rejected window at the very start of a buffer holding less than a second window: nothing but the window goes. */
  lemma RejectedLeadingWindow(buf: seq<Byte>)
    requires FrameSize <= |buf| < 2 * FrameSize && OccursAt(buf, Marker, 0)
    requires !Accepts(buf[..FrameSize])
    ensures Drain(buf) == Outcome(buf[FrameSize..], [])
  {
    WindowConsumed(buf, 0);
    assert buf[0..FrameSize] == buf[..FrameSize];
    ShortBufferKept(buf[FrameSize..]);
  }

  /** A call that yields anything found a complete window at the first marker. */
  lemma FramesNeedWindow(buf: seq<Byte>)
    requires |Drain(buf).frames| > 0
    ensures |buf| >= FrameSize
    ensures 0 <= IndexOf(buf, Marker) && IndexOf(buf, Marker) + FrameSize <= |buf|
  {
  }

  /** An accepted window at a marker is the encoding of its own samples. */
  lemma AcceptedWindowIsEncoded(buf: seq<Byte>, h: nat)
    requires OccursAt(buf, Marker, h) && h + FrameSize <= |buf|
    requires Accepts(buf[h..h + FrameSize])
    ensures OccursAt(buf, Encode(Payload(buf[h..h + FrameSize])), h)
  {
    var window := buf[h..h + FrameSize];
    assert window[..PayloadOffset] == Marker;
    AcceptsIffEncoded(window);
  }

  /** Every emitted sample vector comes from a well-formed frame present, in full, in the buffer. */
  lemma {:induction false} EmittedFramesWereInBuffer(buf: seq<Byte>, k: nat)
    requires k < |Drain(buf).frames|
    ensures exists i :: OccursAt(buf, Encode(Drain(buf).frames[k]), i)
    decreases |buf|, 1
  {
    FramesNeedWindow(buf);
    var h := IndexOf(buf, Marker);
    var window := buf[h..h + FrameSize];
    var tailBuf := buf[h + FrameSize..];
    var tail := Drain(tailBuf);
    WindowConsumed(buf, h);
    if Accepts(window) {
      var frames := [Payload(window)] + tail.frames;
      assert Drain(buf).frames == frames;
      if k == 0 {
        AcceptedWindowIsEncoded(buf, h);
        assert Drain(buf).frames[k] == Payload(window);
      } else {
        ConsIndex(Payload(window), tail.frames, k);
        FrameFromTail(buf, tailBuf, h + FrameSize, k - 1);
      }
    } else {
      assert Drain(buf).frames == tail.frames;
      FrameFromTail(buf, tailBuf, h + FrameSize, k);
    }
  }

  /** Indexing past the head of a cons, for the emitted list. */
  lemma ConsIndex<T>(x: T, t: seq<T>, k: nat)
    requires 0 < k <= |t|
    ensures ([x] + t)[k] == t[k - 1]
  {
  }

  /** A frame the rest of the loop emits lies in the buffer after the current window. */
  lemma {:induction false} FrameFromTail(buf: seq<Byte>, tailBuf: seq<Byte>, d: nat, k: nat)
    requires d <= |buf| && tailBuf == buf[d..]
    requires k < |Drain(tailBuf).frames|
    ensures exists i :: OccursAt(buf, Encode(Drain(tailBuf).frames[k]), i)
    decreases |tailBuf| + 1, 0
  {
    var w := Encode(Drain(tailBuf).frames[k]);
    EmittedFramesWereInBuffer(tailBuf, k);
    var i :| OccursAt(tailBuf, w, i);
    OccursInSuffix(buf, d, w, i);
  }

  // ---------------------------------------------------------------------------
  // Several calls

  lemma {:induction false} FeedNothing(chunks: seq<seq<Byte>>)
    requires Concat(chunks) == []
    ensures Feed([], chunks) == Outcome([], [])
  {
    if |chunks| > 0 {
      assert chunks[0] == [];
      FeedNothing(chunks[1..]);
    }
  }

  lemma {:induction false} PartialDeliveryFrom(b: seq<Byte>, chunks: seq<seq<Byte>>, p: seq<Byte>)
    requires |p| == PayloadSize && |b| < FrameSize
    requires b + Concat(chunks) == Encode(p)
    ensures Feed(b, chunks) == Outcome([], [p])
    decreases |chunks|
  {
    assert |chunks| > 0;
    var b' := b + chunks[0];
    assert b' + Concat(chunks[1..]) == Encode(p);
    if |b'| < FrameSize {
      PartialDeliveryFrom(b', chunks[1..], p);
    } else {
      assert b' == Encode(p);
      RoundTrip(p);
      FeedNothing(chunks[1..]);
    }
  }

  /** Partial delivery: a frame split across any number of chunks, fed to an empty buffer, gives the same single sample vector as the frame fed whole. */
  lemma PartialDelivery(chunks: seq<seq<Byte>>, p: seq<Byte>)
    requires |p| == PayloadSize
    requires Concat(chunks) == Encode(p)
    ensures Feed([], chunks) == Outcome([], [p])
  {
    PartialDeliveryFrom([], chunks, p);
  }
}
