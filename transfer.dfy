/**
 * Reference definitions of the windowed transfers: how a known-length text
 * body is read in window-sized segments, how an unknown-length body is read
 * up to the END_TEXT marker, and how an outgoing frame is cut into segments.
 * The connection's loops are proved to compute exactly these.
 */
module Transfer {
  import opened Java
  import opened Sockets
  import opened Packet

  function Min(a: int, b: int): int
  {
    if a < b then a else b
  }

  /** `bufferCount`: `len / W + (len % W != 0 ? 1 : 0)`, in Java's int arithmetic. */
  function BufferCount(len: int, w: nat): int
    requires w > 0
  {
    JavaDiv(len, w) + (if JavaRem(len, w) != 0 then 1 else 0)
  }

  /** The room in `left` window-sized segments, counted one segment at a time. */
  function Span(left: int, w: nat): (room: int)
    ensures room >= 0
    decreases left
  {
    if left <= 0 then 0 else w + Span(left - 1, w)
  }

  lemma {:induction false} SpanIsProduct(left: nat, w: nat)
    ensures Span(left, w) == left * w
    decreases left
  {
    if left > 0 {
      SpanIsProduct(left - 1, w);
      assert left * w == (left - 1) * w + w;
    }
  }

  /** `left` window-sized segments are exactly what `remaining` bytes need: none for none, else the last one is partly used. */
  predicate SegmentsLeft(remaining: int, w: nat, left: int)
  {
    (remaining == 0 && left == 0) || (remaining > 0 && left > 0 && Span(left - 1, w) < remaining <= Span(left, w))
  }

  /** The same bound, with the room as a product. */
  lemma SegmentsLeftProduct(remaining: int, w: nat, left: int)
    requires SegmentsLeft(remaining, w, left)
    ensures left >= 0
    ensures remaining == 0 ==> left == 0
    ensures remaining > 0 ==> left > 0 && (left - 1) * w < remaining <= left * w
  {
    if left > 0 {
      SpanIsProduct(left, w);
      SpanIsProduct(left - 1, w);
    }
  }

  /** For a length that is not negative, `bufferCount` is the ceiling of `len / W`. */
  lemma BufferCountIsCeiling(len: nat, w: nat)
    requires w > 0
    ensures BufferCount(len, w) >= 0
    ensures SegmentsLeft(len, w, BufferCount(len, w))
  {
    var q, r := len / w, len % w;
    assert JavaDiv(len, w) == q && JavaRem(len, w) == r;
    SpanIsProduct(q, w);
    if q > 0 {
      assert Span(q, w) == w + Span(q - 1, w);
    }
    assert Span(q + 1, w) == w + Span(q, w);
  }

  /** One segment of `Min(W, remaining)` bytes leaves one segment fewer for the rest. */
  lemma SegmentsLeftStep(remaining: int, w: nat, left: int)
    requires w > 0 && remaining > 0 && SegmentsLeft(remaining, w, left)
    ensures left >= 1
    ensures SegmentsLeft(remaining - Min(w, remaining), w, left - 1)
  {
    if left > 1 {
      assert Span(left - 1, w) == w + Span(left - 2, w);
    }
  }

  /** With no segment left, nothing remains. */
  lemma NoSegmentsLeft(remaining: int, w: nat)
    requires SegmentsLeft(remaining, w, 0)
    ensures remaining == 0
  {
  }

  /** A buffer after a read stored `got` at its start: the bytes beyond stay as they were. */
  function Overlay(buf: Bytes, got: Bytes): (r: Bytes)
    requires |got| <= |buf|
    ensures |r| == |buf| && r[..|got|] == got && r[|got|..] == buf[|got|..]
  {
    got + buf[|got|..]
  }

  /**
   * The result of a read loop: whether it completed, the body bytes it
   * collected, the input it left, and the contents of the window buffer.
   */
  datatype Run = Run(ok: bool, body: Bytes, rest: seq<Chunk>, buf: Bytes)

  function Prepend(b: Bytes, run: Run): Run
  {
    run.(body := b + run.body)
  }

  /** Prepending `a` to a run already prepended with `b` prepends `a + b`. */
  lemma PrependTwice(a: Bytes, b: Bytes, run: Run)
    ensures Prepend(a, Prepend(b, run)) == Prepend(a + b, run)
  {
    assert a + (b + run.body) == (a + b) + run.body;
  }

  /**
   * Known-length read of `remaining` bytes: segments of `Min(W, remaining)`
   * bytes, each of which must arrive whole in one read, else the loop fails.
   */
  function KnownRead(input: seq<Chunk>, w: nat, remaining: nat, buf: Bytes): (run: Run)
    requires w > 0 && |buf| == w
    ensures |run.buf| == w
    decreases remaining
  {
    if remaining == 0 then Run(true, [], input, buf)
    else
      var expected := Min(w, remaining);
      var r := Receive(input, expected);
      if r.count != expected then Run(false, [], r.rest, Overlay(buf, r.got))
      else Prepend(r.got, KnownRead(r.rest, w, remaining - expected, Overlay(buf, r.got)))
  }

  /**
   * One pass of the known-length loop, for a loop that has already collected
   * `body`: a short read ends the run there, a whole segment extends `body`.
   */
  lemma KnownReadStep(input: seq<Chunk>, w: nat, remaining: nat, buf: Bytes, body: Bytes, run0: Run)
    requires w > 0 && |buf| == w && remaining > 0
    requires Prepend(body, KnownRead(input, w, remaining, buf)) == run0
    ensures var r := Receive(input, Min(w, remaining));
      && (r.count != Min(w, remaining) ==>
            run0 == Run(false, body, r.rest, Overlay(buf, r.got)))
      && (r.count == Min(w, remaining) ==>
            Prepend(body + r.got, KnownRead(r.rest, w, remaining - Min(w, remaining), Overlay(buf, r.got))) == run0)
  {
    var r := Receive(input, Min(w, remaining));
    if r.count == Min(w, remaining) {
      PrependTwice(body, r.got, KnownRead(r.rest, w, remaining - Min(w, remaining), Overlay(buf, r.got)));
    }
  }

  /** A run that completed delivered `n` bytes, and they were the next bytes of `input`'s stream. */
  predicate Delivered(input: seq<Chunk>, run: Run, n: nat)
  {
    run.ok ==> |run.body| == n && Stream(input) == run.body + Stream(run.rest)
  }

  /**
   * A completed known-length read delivers exactly `remaining` bytes, and
   * they are the next bytes of the stream.
   */
  lemma {:induction false} KnownReadDelivers(input: seq<Chunk>, w: nat, remaining: nat, buf: Bytes)
    requires w > 0 && |buf| == w
    ensures Delivered(input, KnownRead(input, w, remaining, buf), remaining)
    decreases remaining
  {
    var r := Receive(input, Min(w, remaining));
    if remaining > 0 && r.count == Min(w, remaining) {
      KnownReadDelivers(r.rest, w, remaining - Min(w, remaining), Overlay(buf, r.got));
      DeliversGlue(input, w, remaining, buf);
    } else {
      DeliversBase(input, w, remaining, buf);
    }
  }

  /** The ends of a known-length read: nothing left to read, or a short read. */
  lemma DeliversBase(input: seq<Chunk>, w: nat, remaining: nat, buf: Bytes)
    requires w > 0 && |buf| == w
    requires remaining == 0 || Receive(input, Min(w, remaining)).count != Min(w, remaining)
    ensures Delivered(input, KnownRead(input, w, remaining, buf), remaining)
  {
    if remaining == 0 {
      assert [] + Stream(input) == Stream(input);
    }
  }

  /** One level of `KnownReadDelivers`, given what it states for the rest of the read. */
  lemma DeliversGlue(input: seq<Chunk>, w: nat, remaining: nat, buf: Bytes)
    requires w > 0 && |buf| == w && remaining > 0
    requires var r := Receive(input, Min(w, remaining));
      && r.count == Min(w, remaining)
      && Delivered(r.rest, KnownRead(r.rest, w, remaining - Min(w, remaining), Overlay(buf, r.got)), remaining - Min(w, remaining))
    ensures Delivered(input, KnownRead(input, w, remaining, buf), remaining)
  {
    var r := Receive(input, Min(w, remaining));
    var next := KnownRead(r.rest, w, remaining - r.count, Overlay(buf, r.got));
    if next.ok {
      ReceiveConserves(input, Min(w, remaining));
      Regroup(Stream(input), r.got, Stream(r.rest), next.body, Stream(next.rest));
    }
  }

  /** Consuming `a` and then `b` from the front of `s` is consuming `a + b`. */
  lemma Regroup<T>(s: seq<T>, a: seq<T>, t: seq<T>, b: seq<T>, u: seq<T>)
    requires s == a + t && t == b + u
    ensures s == (a + b) + u
  {
  }

  /** A stream holding fewer than `remaining` bytes always makes the known-length read fail. */
  lemma KnownReadShortFails(input: seq<Chunk>, w: nat, remaining: nat, buf: Bytes)
    requires w > 0 && |buf| == w && |Stream(input)| < remaining
    ensures !KnownRead(input, w, remaining, buf).ok
  {
    KnownReadDelivers(input, w, remaining, buf);
  }

  /**
   * When a whole chunk of at least `remaining` bytes is waiting, each
   * segment comes whole from it: the read succeeds with the chunk's first
   * `remaining` bytes and leaves the rest of the chunk.
   */
  lemma {:induction false} KnownReadWhole(s: Bytes, more: seq<Chunk>, w: nat, remaining: nat, buf: Bytes)
    requires w > 0 && |buf| == w && remaining <= |s|
    ensures var run := KnownRead([Data(s)] + more, w, remaining, buf);
      && run.ok && run.body == s[..remaining]
      && run.rest == (if 0 < remaining == |s| then more else [Data(s[remaining..])] + more)
    decreases remaining
  {
    if remaining == 0 {
      assert s[..0] == [] && s[0..] == s;
    } else {
      var e := Min(w, remaining);
      var buf' := Overlay(buf, s[..e]);
      KnownReadFirstSegment(s, more, w, remaining, buf);
      if e < |s| {
        KnownReadWhole(s[e..], more, w, remaining - e, buf');
        KnownReadJoin(s, e, remaining);
      }
    }
  }

  /** The first segment of a known-length read from a whole chunk. */
  lemma KnownReadFirstSegment(s: Bytes, more: seq<Chunk>, w: nat, remaining: nat, buf: Bytes)
    requires w > 0 && |buf| == w && 0 < remaining <= |s|
    ensures var e := Min(w, remaining);
      var buf' := Overlay(buf, s[..e]);
      KnownRead([Data(s)] + more, w, remaining, buf)
        == if e == |s| then Run(true, s, more, buf')
           else Prepend(s[..e], KnownRead([Data(s[e..])] + more, w, remaining - e, buf'))
  {
    var e := Min(w, remaining);
    ReceiveFromWhole(s, more, e);
    if e == |s| {
      assert s[..e] == s;
    }
  }

  /** Slicing identities for a chunk read in two parts. */
  lemma KnownReadJoin(s: Bytes, e: nat, remaining: nat)
    requires e <= remaining <= |s|
    ensures s[..e] + s[e..][..remaining - e] == s[..remaining]
    ensures s[e..][remaining - e..] == s[remaining..]
  {
    assert s[..e] + s[e..][..remaining - e] == s[..remaining];
  }

  /**
   * Unknown-length read: read whole windows until the window buffer,
   * including the bytes a short read did not overwrite, contains END_TEXT.
   * A read at the end of the stream fails the loop.
   */
  function UnknownRead(input: seq<Chunk>, w: nat, buf: Bytes): (run: Run)
    requires w > 0 && |buf| == w
    ensures |run.buf| == w
    decreases Size(input)
  {
    var r := Receive(input, w);
    if r.count < 0 then Run(false, [], r.rest, buf)
    else
      var buf' := Overlay(buf, r.got);
      if END_TEXT in buf' then Run(true, r.got, r.rest, buf')
      else Prepend(r.got, UnknownRead(r.rest, w, buf'))
  }

  /**
   * A completed unknown-length read stops with END_TEXT somewhere in the
   * window buffer, and what it delivers is the next bytes of the stream.
   * At the end of the stream it fails.
   */
  lemma {:induction false} UnknownReadDelivers(input: seq<Chunk>, w: nat, buf: Bytes)
    requires w > 0 && |buf| == w
    ensures var run := UnknownRead(input, w, buf);
      run.ok ==> END_TEXT in run.buf && Stream(input) == run.body + Stream(run.rest)
    ensures AtEnd(input) ==> !UnknownRead(input, w, buf).ok
    decreases Size(input)
  {
    var r := Receive(input, w);
    ReceiveConserves(input, w);
    if r.count >= 0 {
      var buf' := Overlay(buf, r.got);
      if END_TEXT !in buf' {
        UnknownReadDelivers(r.rest, w, buf');
        var next := UnknownRead(r.rest, w, buf');
        if next.ok {
          Regroup(Stream(input), r.got, Stream(r.rest), next.body, Stream(next.rest));
        }
      }
    }
  }

  /**
   * The marker is not a terminator but a trigger: the segment that holds it
   * is delivered whole, bytes after the marker included, and what follows
   * that segment is left in the stream.
   */
  lemma UnknownReadMarkerSegment(s: Bytes, more: seq<Chunk>, w: nat, buf: Bytes)
    requires w > 0 && |buf| == w && 0 < |s| <= w && END_TEXT in s
    ensures UnknownRead([Data(s)] + more, w, buf) == Run(true, s, more, Overlay(buf, s))
  {
    assert ([Data(s)] + more)[1..] == more;
    var buf' := Overlay(buf, s);
    assert buf'[..|s|] == s;
  }

  /**
   * A marker left in the window buffer by an earlier frame stops the read as
   * well: a short segment without the marker ends the body when the bytes it
   * did not overwrite hold one.
   */
  lemma UnknownReadStaleMarker(s: Bytes, more: seq<Chunk>, w: nat, buf: Bytes)
    requires w > 0 && |buf| == w && |s| <= w && END_TEXT !in s && END_TEXT in buf[|s|..]
    ensures UnknownRead([Data(s)] + more, w, buf) == Run(true, s, more, Overlay(buf, s))
  {
    assert ([Data(s)] + more)[1..] == more;
    var buf' := Overlay(buf, s);
    assert buf'[|s|..] == buf[|s|..];
  }

  /** An outgoing frame cut into window-sized segments, the last one possibly shorter. */
  function Segments(frame: Bytes, w: nat): seq<Bytes>
    requires w > 0
    decreases |frame|
  {
    if frame == [] then []
    else if |frame| <= w then [frame]
    else [frame[..w]] + Segments(frame[w..], w)
  }

  function Concat(segments: seq<Bytes>): Bytes
  {
    if segments == [] then [] else segments[0] + Concat(segments[1..])
  }

  /** The first segment of a non-empty frame is `Min(W, len)` bytes long. */
  lemma SegmentsHead(frame: Bytes, w: nat)
    requires w > 0 && frame != []
    ensures Segments(frame, w) == [frame[..Min(w, |frame|)]] + Segments(frame[Min(w, |frame|)..], w)
  {
    if |frame| <= w {
      assert frame[..|frame|] == frame;
      assert frame[|frame|..] == [];
    }
  }

  /** The segments of a frame's tail from `total` on start with the next `Min(W, len - total)` bytes. */
  lemma SegmentsFrom(frame: Bytes, total: nat, w: nat)
    requires w > 0 && total < |frame|
    ensures var e := Min(w, |frame| - total);
      Segments(frame[total..], w) == [frame[total..total + e]] + Segments(frame[total + e..], w)
  {
    var e := Min(w, |frame| - total);
    SegmentsHead(frame[total..], w);
    assert frame[total..][..e] == frame[total..total + e];
    assert frame[total..][e..] == frame[total + e..];
  }

  /** The segments, in order, are exactly the frame. */
  lemma {:induction false} SegmentsConcat(frame: Bytes, w: nat)
    requires w > 0
    ensures Concat(Segments(frame, w)) == frame
    decreases |frame|
  {
    if frame != [] {
      var e := Min(w, |frame|);
      SegmentsHead(frame, w);
      SegmentsConcat(frame[e..], w);
      assert Concat(Segments(frame, w)) == frame[..e] + Concat(Segments(frame[e..], w));
      assert frame == frame[..e] + frame[e..];
    }
  }

  /** A frame leaves in `ceil(len / W)` segments, which is `bufferCount`. */
  lemma {:induction false} SegmentsCount(frame: Bytes, w: nat)
    requires w > 0
    ensures SegmentsLeft(|frame|, w, |Segments(frame, w)|)
    ensures |Segments(frame, w)| == BufferCount(|frame|, w)
    decreases |frame|
  {
    if |frame| > w {
      SegmentsCount(frame[w..], w);
      var t := |Segments(frame[w..], w)|;
      assert |Segments(frame, w)| == t + 1;
      assert SegmentsLeft(|frame| - w, w, t);
      assert Span(t, w) == w + Span(t - 1, w);
    } else if frame != [] {
      assert Span(1, w) == w;
    }
    SegmentsLeftCount(|frame|, w, |Segments(frame, w)|);
  }

  /** Segment k is `frame[k*W .. min((k+1)*W, len)]`: never empty, never longer than the window. */
  lemma {:induction false} SegmentAt(frame: Bytes, w: nat, k: nat)
    requires w > 0 && k < |Segments(frame, w)|
    ensures k * w < |frame|
    ensures 0 < |Segments(frame, w)[k]| <= w
    ensures Segments(frame, w)[k] == frame[k * w .. Min((k + 1) * w, |frame|)]
    decreases k
  {
    var segs := Segments(frame, w);
    if |frame| <= w {
      assert k == 0 && segs[0] == frame;
      assert frame[0 .. |frame|] == frame;
    } else if k == 0 {
      assert segs[0] == frame[..w];
    } else {
      var tail := frame[w..];
      assert segs[k] == Segments(tail, w)[k - 1];
      SegmentAt(tail, w, k - 1);
      assert (k - 1) * w + w == k * w;
      assert k * w + w == (k + 1) * w;
      assert Min(k * w, |tail|) + w == Min((k + 1) * w, |frame|);
      assert tail[(k - 1) * w .. Min(k * w, |tail|)] == frame[k * w .. Min((k + 1) * w, |frame|)];
    }
  }

  /** `SegmentsLeft` pins the count down to `bufferCount`. */
  lemma SegmentsLeftCount(len: nat, w: nat, left: int)
    requires w > 0 && SegmentsLeft(len, w, left)
    ensures left == BufferCount(len, w)
  {
    BufferCountIsCeiling(len, w);
    var c := BufferCount(len, w);
    if left < c {
      SpanMonotone(left, c - 1, w);
    } else if c < left {
      SpanMonotone(c, left - 1, w);
    }
  }

  lemma {:induction false} SpanMonotone(a: int, b: int, w: nat)
    requires a <= b
    ensures Span(a, w) <= Span(b, w)
    decreases b - a
  {
    if a < b {
      SpanMonotone(a, b - 1, w);
    }
  }

  /** A 600-byte frame with a 255-byte window leaves as three segments: 255, 255 and 90 bytes. */
  lemma SixHundredBytesInThreeSegments(frame: Bytes)
    requires |frame| == 600
    ensures |Segments(frame, 255)| == 3
    ensures |Segments(frame, 255)[0]| == 255 && |Segments(frame, 255)[1]| == 255 && |Segments(frame, 255)[2]| == 90
  {
    assert Segments(frame, 255) == [frame[..255]] + Segments(frame[255..], 255);
    assert Segments(frame[255..], 255) == [frame[255..][..255]] + Segments(frame[255..][255..], 255);
    assert Segments(frame[255..][255..], 255) == [frame[255..][255..]];
  }

  /** The chunks a reader sees when each segment arrives on its own. */
  function AsChunks(segments: seq<Bytes>): seq<Chunk>
  {
    if segments == [] then [] else [Data(segments[0])] + AsChunks(segments[1..])
  }

  /**
   * Writer and reader agree: a body cut into segments with the same window
   * and delivered one segment per read is reassembled byte for byte by the
   * known-length read, which leaves exactly what came after it.
   */
  lemma {:induction false} SegmentedBodyRoundTrip(body: Bytes, w: nat, more: seq<Chunk>, buf: Bytes)
    requires w > 0 && |buf| == w
    ensures var run := KnownRead(AsChunks(Segments(body, w)) + more, w, |body|, buf);
      run.ok && run.body == body && run.rest == more
    decreases |body|
  {
    if body != [] {
      var e := Min(w, |body|);
      SegmentsHead(body, w);
      var segs := Segments(body, w);
      var input := AsChunks(segs) + more;
      assert AsChunks(segs) == [Data(body[..e])] + AsChunks(segs[1..]);
      assert input == [Data(body[..e])] + (AsChunks(segs[1..]) + more);
      ReceiveFromWhole(body[..e], AsChunks(segs[1..]) + more, e);
      assert body[..e][..e] == body[..e];
      var buf' := Overlay(buf, body[..e]);
      SegmentedBodyRoundTrip(body[e..], w, more, buf');
      assert body == body[..e] + body[e..];
    }
  }
}
