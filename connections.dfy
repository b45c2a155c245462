/**
 * What each operation of a `Client` connection does to its state, as pure
 * functions: queueing (`send`), the windowed writer (`write`, `forceSend`),
 * the header read and dispatch (`read`) and the body-reading handlers of
 * START_TEXT, the TIME enquiry and ESCAPE. The `Client` class is proved to
 * compute exactly these; the lemmas here state what they promise.
 */
module Connections {
  import opened Java
  import opened Results
  import opened Packet
  import opened Sockets
  import opened Transfer
  import opened Protocol
  import Utf8

  /** How an operation ends: normally, with an exception that propagates to the caller, or never. */
  datatype Outcome = Ok | Threw(exception: Exception) | Diverges

  /**
   * The state of one connection:
   * `window` is the capacity of `inBuffer` and `outBuffer`;
   * `writeCap` is the most one `socket.write` call accepts (at least one byte);
   * `incoming` holds the arrays delivered upward, `outgoing` the frames waiting to be written;
   * `writeInterest` is whether OP_WRITE is in the selection key's interest set;
   * `closed` is whether `shutdown` ran;
   * `input` is what the peer has sent that is not yet read;
   * `buf` is the backing array of `inBuffer`;
   * `wire` is what was written, one entry per flushed `outBuffer`.
   */
  datatype Conn = Conn(
    window: nat, writeCap: nat, flags: Flags,
    incoming: seq<Bytes>, outgoing: seq<Bytes>,
    writeInterest: bool, closed: bool,
    input: seq<Chunk>, buf: Bytes, wire: seq<Bytes>)

  predicate Valid(c: Conn)
  {
    c.window > 0 && c.writeCap > 0 && |c.buf| == c.window
  }

  /** Nothing changes the window, the write cap or the size of the buffer. */
  predicate Same(c: Conn, d: Conn)
  {
    d.window == c.window && d.writeCap == c.writeCap && |d.buf| == |c.buf|
  }

  /** The state after an operation, and how the operation ended. */
  datatype Step = Step(conn: Conn, outcome: Outcome)

  /** `ByteBuffer.allocate(n)`: n zero bytes. */
  function Zeros(n: nat): (z: Bytes)
    ensures |z| == n && forall i :: 0 <= i < n ==> z[i] == 0
  {
    seq(n, _ => 0)
  }

  /** A server-side connection just registered for reading. */
  function New(window: nat, writeCap: nat, input: seq<Chunk>): (c: Conn)
    ensures window > 0 && writeCap > 0 ==> Valid(c)
    ensures c.flags == Flags(0, 0) && c.incoming == [] && c.outgoing == [] && c.wire == []
    ensures !c.writeInterest && !c.closed && c.input == input
    ensures forall i :: 0 <= i < |c.buf| ==> c.buf[i] == 0
  {
    Conn(window, writeCap, INITIAL_FLAGS, [], [], false, false, input, Zeros(window), [])
  }

  // ---------------------------------------------------------------------
  // Queueing and writing

  /** `send`: offer the frame to the tail of `outgoing` and add OP_WRITE to the interest set. */
  function Send(c: Conn, frame: Bytes): (d: Conn)
    ensures d.outgoing == c.outgoing + [frame] && d.writeInterest
    ensures d.flags == c.flags && d.incoming == c.incoming && d.input == c.input && d.wire == c.wire && d.closed == c.closed
    ensures Valid(c) ==> Valid(d) && Same(c, d)
  {
    c.(outgoing := c.outgoing + [frame], writeInterest := true)
  }

  /** The segment loop of `write`: `bufferCount` flushes of `outBuffer`, each written whole. */
  function Flush(c: Conn, frame: Bytes): Conn
    requires Valid(c)
  {
    c.(wire := c.wire + Segments(frame, c.window))
  }

  /** Register for reading only, once the queue is empty. */
  function ReadOnlyWhenDrained(c: Conn): Conn
  {
    if c.outgoing == [] then c.(writeInterest := false) else c
  }

  /**
   * `write`, as written: poll the head frame; with none, drop OP_WRITE.
   * The whole frame is first `put` into `outBuffer`, whose capacity is the
   * window, so a longer frame throws BufferOverflowException after it left
   * the queue; `getInt(0)` then needs a window of four bytes.
   */
  function Write(c: Conn): (s: Step)
    requires Valid(c)
    ensures Valid(s.conn) && Same(c, s.conn)
  {
    if c.outgoing == [] then Step(c.(writeInterest := false), Ok)
    else
      var frame := c.outgoing[0];
      var polled := c.(outgoing := c.outgoing[1..]);
      if |frame| > c.window then Step(polled, Threw(BufferOverflow))
      else if c.window < HEADER_LEN then Step(polled, Threw(IndexOutOfBounds))
      else Step(ReadOnlyWhenDrained(Flush(polled, frame)), Ok)
  }

  /** `write` with the segment loop doing all the work: any frame leaves in `ceil(len / W)` segments. */
  function SegmentedWrite(c: Conn): (s: Step)
    requires Valid(c)
    ensures Valid(s.conn) && Same(c, s.conn)
  {
    if c.outgoing == [] then Step(c.(writeInterest := false), Ok)
    else
      var frame := c.outgoing[0];
      Step(ReadOnlyWhenDrained(Flush(c.(outgoing := c.outgoing[1..]), frame)), Ok)
  }

  /** `forceSend`: `send` followed at once by one `write`. */
  function ForceSend(c: Conn, frame: Bytes): (s: Step)
    requires Valid(c)
    ensures Valid(s.conn) && Same(c, s.conn)
  {
    Write(Send(c, frame))
  }

  // ---------------------------------------------------------------------
  // Reading

  /** Offer an assembled array upward and acknowledge the text section. */
  function Deliver(c: Conn, received: Bytes): (d: Conn)
    ensures d.incoming == c.incoming + [received]
    ensures d.outgoing == c.outgoing + [[0, 6, 2, 0]] && d.writeInterest
    ensures d.flags == c.flags && d.input == c.input && d.wire == c.wire && d.buf == c.buf
    ensures Valid(c) ==> Valid(d) && Same(c, d)
  {
    Send(c.(incoming := c.incoming + [received]), [NULL, ACKNOWLEDGE, START_TEXT, NULL])
  }

  /**
   * `START_TEXT.parse`. Both controls 0 announce a body of unknown length,
   * read window by window until the window array holds END_TEXT; at the end
   * of the stream `read` returns -1 and writing -1 bytes to the pipe throws
   * IndexOutOfBoundsException. Otherwise the body is `control1 * control2`
   * bytes of Java int arithmetic: a product below -4 fails the array
   * allocation, one in -4..-1 fails copying the header into the too-short
   * array, and any short segment throws IOException. A whole section is
   * then logged as a string before it is offered (see `Received`).
   */
  function StartText(c: Conn, header: Bytes): (s: Step)
    requires Valid(c) && |header| == HEADER_LEN
    ensures Valid(s.conn) && Same(c, s.conn)
  {
    var control1, control2 := header[PACKET_CONTROL1], header[PACKET_CONTROL2];
    if control1 == 0 && control2 == 0 then
      var run := UnknownRead(c.input, c.window, c.buf);
      var after := c.(input := run.rest, buf := run.buf);
      if !run.ok then Step(after, Threw(IndexOutOfBounds))
      else Received(after, header + run.body)
    else
      var length := AnnouncedLength(header);
      if HEADER_LEN + length < 0 then Step(c, Threw(NegativeArraySize))
      else if length < 0 then Step(c, Threw(IndexOutOfBounds))
      else
        var run := KnownRead(c.input, c.window, length, c.buf);
        var after := c.(input := run.rest, buf := run.buf);
        if !run.ok then Step(after, Threw(IOException("")))
        else Received(after, header + run.body)
  }

  /**
   * The end of `START_TEXT.parse` once the section is read: the log line
   * decodes the whole array with the default charset, UTF-8, and takes
   * `substring(4, length)`, which throws StringIndexOutOfBoundsException
   * when the string has fewer `char`s than the array has bytes; otherwise
   * the array is offered upward and acknowledged.
   */
  function Received(c: Conn, received: Bytes): (s: Step)
    ensures s.outcome == Ok <==> Utf8.OneForOne(received)
    ensures s.outcome == Ok ==> s.conn == Deliver(c, received)
    ensures s.outcome != Ok ==> s == Step(c, Threw(StringIndexOutOfBounds))
  {
    Utf8.DecodedLengthOneForOne(received);
    if Utf8.DecodedLength(received) < |received| then Step(c, Threw(StringIndexOutOfBounds))
    else Step(Deliver(c, received), Ok)
  }

  /** The known body length `control1 * control2`, a product of two signed bytes in Java int arithmetic. */
  function AnnouncedLength(header: Bytes): int
    requires |header| == HEADER_LEN
  {
    (header[PACKET_CONTROL1] as int) * (header[PACKET_CONTROL2] as int)
  }

  /**
   * `TIME.parse`: read exactly `control2` payload bytes into `inBuffer`
   * (a negative or over-capacity limit is an IllegalArgumentException),
   * take a long from them (fewer than eight bytes underflow) and
   * acknowledge the enquiry.
   */
  function TimeEnquiry(c: Conn, header: Bytes): (s: Step)
    requires Valid(c) && |header| == HEADER_LEN
    ensures Valid(s.conn) && Same(c, s.conn)
  {
    var payload := header[PACKET_CONTROL2];
    if payload < 0 || payload > c.window then Step(c, Threw(IllegalArgument))
    else
      var r := Receive(c.input, payload);
      var after := c.(input := r.rest, buf := Overlay(c.buf, r.got));
      if r.count != payload then Step(after, Threw(IOException("Provided data section is not at specified length")))
      else if payload < LONG_BYTES then Step(after, Threw(BufferUnderflow))
      else Step(Send(after, [NULL, ACKNOWLEDGE, ENQUIRY, NULL]), Ok)
  }

  /** `ESCAPE.parse`: force out `ACKNOWLEDGE.bytes(ESCAPE)`, then shut the connection down. */
  function Escape(c: Conn): (s: Step)
    requires Valid(c)
    ensures Valid(s.conn) && Same(c, s.conn)
  {
    var w := ForceSend(c, Ack(ESCAPE));
    if w.outcome != Ok then w else Step(w.conn.(closed := true), Ok)
  }

  /** The flags and replies of a handler that reads nothing more. */
  function Apply(c: Conn, e: Effect): Conn
  {
    c.(flags := e.flags, outgoing := c.outgoing + e.replies, writeInterest := c.writeInterest || e.replies != [])
  }

  /**
   * `read`: limit `inBuffer` to the header (which needs a window of four),
   * read once, and give up quietly unless exactly four bytes came; then
   * dispatch on the status byte.
   */
  function Read(c: Conn, now: Long): (s: Step)
    requires Valid(c)
    ensures Valid(s.conn) && Same(c, s.conn)
  {
    if c.window < HEADER_LEN then Step(c, Threw(IllegalArgument))
    else
      var r := Receive(c.input, HEADER_LEN);
      var after := c.(input := r.rest, buf := Overlay(c.buf, r.got));
      if r.count != HEADER_LEN then Step(after, Ok)
      else Handle(after, r.got, now)
  }

  /** What `read` does with a whole header: the dispatcher's effect, or the handler that reads on. */
  function Handle(c: Conn, header: Bytes, now: Long): (s: Step)
    requires Valid(c) && |header| == HEADER_LEN
    ensures Valid(s.conn) && Same(c, s.conn)
  {
    match ClientDispatch(c.flags, header, now)
    case Done(e) => Step(Apply(c, e), Ok)
    case TextBody => StartText(c, header)
    case TimeBody => TimeEnquiry(c, header)
    case Shutdown => Escape(c)
  }

  /**
   * What `read` does with an ENQUIRY header: an unknown enquiry type is
   * caught and refused with a NEG_ACKNOWLEDGE of the status byte, NORMAL and
   * RETURN are answered at once, TIME goes on to read its payload and
   * RETURN_TIME answers with the clock reading.
   */
  lemma HandleEnquiry(c: Conn, header: Bytes, now: Long)
    requires Valid(c) && |header| == HEADER_LEN
    requires StatusTypes.FromOrdinal(header[PACKET_STATUS]) == Some(StatusTypes.Enquiry)
    ensures var s := Handle(c, header, now);
      match EnquiryTypes.FromOrdinal(header[PACKET_CONTROL1])
      case None => s == Step(Send(c, Nak(header[PACKET_STATUS])), Ok)
      case Some(Normal) => s == Step(Send(c, [NULL, ACKNOWLEDGE, ENQUIRY, NULL]), Ok)
      case Some(Return) => s == Step(Send(c, [NULL, ENQUIRY, NULL, NULL]), Ok)
      case Some(Time) => s == TimeEnquiry(c, header)
      case Some(ReturnTime) => s == Step(Send(c, TimeFrame(now)), Ok)
  {
  }

  // ---------------------------------------------------------------------
  // Properties

  /**
   * `write` takes exactly the head of the queue, whatever happens next:
   * either its segments reach the wire and the call succeeds, or the call
   * throws and nothing is written. Flags, delivered arrays and input are
   * untouched.
   */
  lemma WriteTakesHead(c: Conn)
    requires Valid(c) && c.outgoing != []
    ensures var w := Write(c);
      && w.conn.outgoing == c.outgoing[1..]
      && (w.outcome == Ok ==> w.conn.wire == c.wire + Segments(c.outgoing[0], c.window))
      && (w.outcome != Ok ==> w.conn.wire == c.wire && w.outcome.Threw?)
      && w.conn.flags == c.flags && w.conn.incoming == c.incoming && w.conn.input == c.input
  {
  }

  /**
   * OP_WRITE is dropped in exactly two cases: the queue was empty on entry,
   * or the write succeeded and emptied it. Otherwise the interest set is
   * left as it was.
   */
  lemma WriteInterest(c: Conn)
    requires Valid(c)
    ensures var w := Write(c);
      && (!w.conn.writeInterest <==> !c.writeInterest || c.outgoing == [] || (|c.outgoing| == 1 && w.outcome == Ok))
  {
  }

  /** Two frames sent one after the other onto an empty queue leave, in order, on the next two writes. */
  lemma FramesLeaveInOrder(c: Conn, first: Bytes, second: Bytes)
    requires Valid(c) && c.outgoing == [] && HEADER_LEN <= c.window
    requires |first| <= c.window && |second| <= c.window
    ensures var w1 := Write(Send(Send(c, first), second));
      var w2 := Write(w1.conn);
      && w1.outcome == Ok && w2.outcome == Ok
      && w1.conn.writeInterest && !w2.conn.writeInterest
      && w2.conn.outgoing == []
      && w2.conn.wire == c.wire + Segments(first, c.window) + Segments(second, c.window)
  {
    var queued := Send(Send(c, first), second);
    assert queued.outgoing == [first, second];
    assert queued.outgoing[1..] == [second];
  }

  /** A frame that fits the window leaves whole, as one segment (none when it is empty). */
  lemma FittingFrameIsOneSegment(frame: Bytes, w: nat)
    requires 0 < w && |frame| <= w
    ensures Segments(frame, w) == if frame == [] then [] else [frame]
  {
  }

  /**
   * A frame longer than the window never reaches the wire: `write` throws
   * BufferOverflowException after removing it from the queue, so it is lost,
   * and the segment loop meant to cut it up is never reached.
   */
  lemma WriteLosesLongFrame(c: Conn)
    requires Valid(c) && c.outgoing != [] && |c.outgoing[0]| > c.window
    ensures Write(c) == Step(c.(outgoing := c.outgoing[1..]), Threw(BufferOverflow))
  {
  }

  /** A 255-byte window and a 256-byte frame: the frame is dropped. */
  lemma WriteLosesFrameOneLongerThanWindow(c: Conn, frame: Bytes)
    requires Valid(c) && c.window == 255 && c.outgoing == [frame] && |frame| == 256
    ensures Write(c).outcome == Threw(BufferOverflow) && Write(c).conn.outgoing == [] && Write(c).conn.wire == c.wire
  {
  }

  /**
   * With the segment loop doing all the work, every frame leaves: the new
   * wire entries are `bufferCount` segments, none empty or longer than the
   * window, and together they are the frame.
   */
  lemma SegmentedWriteSendsWholeFrame(c: Conn)
    requires Valid(c) && c.outgoing != []
    ensures var w := SegmentedWrite(c);
      var frame := c.outgoing[0];
      && w.outcome == Ok && w.conn.outgoing == c.outgoing[1..]
      && |w.conn.wire| == |c.wire| + BufferCount(|frame|, c.window)
      && w.conn.wire[..|c.wire|] == c.wire
      && Concat(w.conn.wire[|c.wire|..]) == frame
      && (forall k :: |c.wire| <= k < |w.conn.wire| ==> 0 < |w.conn.wire[k]| <= c.window)
  {
    var frame := c.outgoing[0];
    var segs := Segments(frame, c.window);
    var wire := SegmentedWrite(c).conn.wire;
    assert wire == c.wire + segs;
    assert wire[..|c.wire|] == c.wire && wire[|c.wire|..] == segs;
    SegmentsConcat(frame, c.window);
    SegmentsCount(frame, c.window);
    forall k | |c.wire| <= k < |wire|
      ensures 0 < |wire[k]| <= c.window
    {
      SegmentAt(frame, c.window, k - |c.wire|);
    }
  }

  /**
   * `forceSend` writes the head of the queue, which is the new frame only
   * when the queue was empty; otherwise the new frame stays queued behind
   * the rest.
   */
  lemma ForceSendWritesHead(c: Conn, frame: Bytes)
    requires Valid(c) && HEADER_LEN <= c.window && |frame| <= c.window
    requires c.outgoing != [] ==> |c.outgoing[0]| <= c.window
    ensures var w := ForceSend(c, frame);
      && w.outcome == Ok
      && (c.outgoing == [] ==> w.conn.wire == c.wire + Segments(frame, c.window) && w.conn.outgoing == [])
      && (c.outgoing != [] ==> w.conn.wire == c.wire + Segments(c.outgoing[0], c.window)
                                && w.conn.outgoing == c.outgoing[1..] + [frame])
  {
    var queued := Send(c, frame);
    assert ForceSend(c, frame) == Write(queued);
    WriteFittingHead(queued);
    if c.outgoing != [] {
      assert queued.outgoing[0] == c.outgoing[0];
      assert queued.outgoing[1..] == c.outgoing[1..] + [frame];
    } else {
      assert queued.outgoing == [frame];
    }
  }

  /** A head frame that fits the window goes out in its segments and leaves the rest of the queue. */
  lemma WriteFittingHead(c: Conn)
    requires Valid(c) && HEADER_LEN <= c.window && c.outgoing != [] && |c.outgoing[0]| <= c.window
    ensures var w := Write(c);
      && w.outcome == Ok && w.conn.wire == c.wire + Segments(c.outgoing[0], c.window)
      && w.conn.outgoing == c.outgoing[1..]
  {
  }

  /**
   * A header read that does not return exactly four bytes (a short read,
   * or -1 at the end of the stream) dispatches nothing, queues nothing and
   * throws nothing.
   */
  lemma IncompleteHeaderIgnored(c: Conn, now: Long)
    requires Valid(c) && HEADER_LEN <= c.window && Receive(c.input, HEADER_LEN).count != HEADER_LEN
    ensures var s := Read(c, now);
      && s.outcome == Ok && s.conn.flags == c.flags && s.conn.outgoing == c.outgoing
      && s.conn.incoming == c.incoming && s.conn.writeInterest == c.writeInterest
  {
  }

  /**
   * A whole header whose status has no handler of its own, or none at all,
   * is answered with one `{0,21,status,0}` at the tail of the queue and
   * changes no flag.
   */
  lemma ReadRefusesUnsupported(c: Conn, now: Long)
    requires Valid(c) && HEADER_LEN <= c.window
    requires var r := Receive(c.input, HEADER_LEN); r.count == HEADER_LEN && !Overridden(r.got[PACKET_STATUS])
    ensures var s := Read(c, now);
      var status := Receive(c.input, HEADER_LEN).got[PACKET_STATUS];
      && s.outcome == Ok && s.conn.flags == c.flags && s.conn.writeInterest
      && s.conn.outgoing == c.outgoing + [[NULL, NEG_ACKNOWLEDGE, status, NULL]]
  {
    UnsupportedStatusRefused(c.flags, Receive(c.input, HEADER_LEN).got, now);
  }

  /**
   * A known-length text section either delivers the header followed by
   * exactly `control1 * control2` bytes, the next ones of the stream, and
   * queues `{0,6,2,0}`; or it throws and delivers and queues nothing. It
   * throws IOException when a segment comes short, which a stream holding
   * fewer bytes than announced always does, and StringIndexOutOfBounds
   * when the whole section arrived but a byte of it opens a UTF-8 form the
   * next byte continues.
   */
  lemma KnownLengthText(c: Conn, header: Bytes)
    requires Valid(c) && |header| == HEADER_LEN
    requires !(header[PACKET_CONTROL1] == 0 && header[PACKET_CONTROL2] == 0)
    requires AnnouncedLength(header) >= 0
    ensures var s := StartText(c, header);
      var length := AnnouncedLength(header);
      var run := KnownRead(c.input, c.window, length, c.buf);
      && (s.outcome == Ok ==>
            && |s.conn.incoming| == |c.incoming| + 1 && s.conn.incoming[..|c.incoming|] == c.incoming
            && var received := s.conn.incoming[|c.incoming|];
            && |received| == HEADER_LEN + length && received[..HEADER_LEN] == header
            && Stream(c.input) == received[HEADER_LEN..] + Stream(s.conn.input)
            && s.conn.outgoing == c.outgoing + [[NULL, ACKNOWLEDGE, START_TEXT, NULL]])
      && (s.outcome != Ok ==> s.conn.incoming == c.incoming && s.conn.outgoing == c.outgoing)
      && (s.outcome == Threw(IOException("")) <==> !run.ok)
      && (s.outcome == Threw(StringIndexOutOfBounds) <==> run.ok && !Utf8.OneForOne(header + run.body))
      && (s.outcome == Ok <==> run.ok && Utf8.OneForOne(header + run.body))
      && (|Stream(c.input)| < length ==> s.outcome == Threw(IOException("")))
  {
    var length := AnnouncedLength(header);
    KnownReadDelivers(c.input, c.window, length, c.buf);
    if |Stream(c.input)| < length {
      KnownReadShortFails(c.input, c.window, length, c.buf);
    }
    var run := KnownRead(c.input, c.window, length, c.buf);
    if run.ok {
      var received := header + run.body;
      assert received[..HEADER_LEN] == header && received[HEADER_LEN..] == run.body;
    }
  }

  /**
   * A text body that arrives in one chunk with the header's length is read
   * exactly, and the rest of the chunk stays unread; the section is then
   * delivered unless decoding it for the log shortens it.
   */
  lemma KnownLengthTextInOneChunk(c: Conn, header: Bytes, body: Bytes, more: seq<Chunk>)
    requires Valid(c) && |header| == HEADER_LEN && c.input == [Data(body)] + more
    requires header[PACKET_CONTROL1] > 0 && header[PACKET_CONTROL2] > 0
    requires AnnouncedLength(header) <= |body|
    ensures var length := AnnouncedLength(header);
      var after := c.(input := if length == |body| then more else [Data(body[length..])] + more,
                      buf := KnownRead(c.input, c.window, length, c.buf).buf);
      && StartText(c, header) == Received(after, header + body[..length])
      && (StartText(c, header).outcome == Ok <==> Utf8.OneForOne(header + body[..length]))
      && (StartText(c, header).outcome == Ok ==> StartText(c, header).conn == Deliver(after, header + body[..length]))
  {
    var length := AnnouncedLength(header);
    KnownReadWhole(body, more, c.window, length, c.buf);
  }

  /**
   * Signed control bytes: a negative product below -4 fails the allocation,
   * one in -4..-1 fails the header copy, and two negative controls
   * announce a positive length that is read as usual. The bytes FE and FD
   * open no UTF-8 form, so only the body decides whether the log line
   * throws.
   */
  lemma SignedControls(c: Conn)
    requires Valid(c)
    ensures StartText(c, [0, 2, -1, 5]) == Step(c, Threw(NegativeArraySize))
    ensures StartText(c, [0, 2, -1, 4]) == Step(c, Threw(IndexOutOfBounds))
    ensures var run := KnownRead(c.input, c.window, 6, c.buf);
      StartText(c, [0, 2, -2, -3]).outcome == Ok <==> run.ok && Utf8.OneForOne(run.body)
  {
    var h: Bytes := [0, 2, -2, -3];
    var run := KnownRead(c.input, c.window, 6, c.buf);
    assert AnnouncedLength(h) == 6;
    if run.ok {
      assert StartText(c, h) == Received(c.(input := run.rest, buf := run.buf), h + run.body);
      Utf8.SinglesDecodeOneForOne(h, run.body);
      Utf8.DecodedLengthOneForOne(run.body);
      Utf8.DecodedLengthOneForOne(h + run.body);
    }
  }

  /**
   * An unknown-length text section that completes stops with END_TEXT in
   * the window array and delivers the header followed by exactly the bytes
   * read, the next ones of the stream, unless decoding it for the log
   * shortens it; at the end of the stream it throws.
   */
  lemma UnknownLengthText(c: Conn, header: Bytes)
    requires Valid(c) && |header| == HEADER_LEN
    requires header[PACKET_CONTROL1] == 0 && header[PACKET_CONTROL2] == 0
    ensures var s := StartText(c, header);
      && (s.outcome == Ok ==>
            && END_TEXT in s.conn.buf
            && s.conn.incoming == c.incoming + [header + (s.conn.incoming[|c.incoming|][HEADER_LEN..])]
            && Stream(c.input) == s.conn.incoming[|c.incoming|][HEADER_LEN..] + Stream(s.conn.input)
            && s.conn.outgoing == c.outgoing + [[NULL, ACKNOWLEDGE, START_TEXT, NULL]])
      && (s.outcome == Ok <==> var run := UnknownRead(c.input, c.window, c.buf); run.ok && Utf8.OneForOne(header + run.body))
      && (AtEnd(c.input) ==> s == Step(c, Threw(IndexOutOfBounds)))
  {
    UnknownReadDelivers(c.input, c.window, c.buf);
    var run := UnknownRead(c.input, c.window, c.buf);
    if run.ok {
      var received := header + run.body;
      assert received[HEADER_LEN..] == run.body;
    }
  }

  /**
   * The TIME enquiry succeeds exactly when control2 is between 8 and the
   * window and that many bytes arrive in one read; then it queues
   * `{0,6,5,0}` and changes no flag.
   */
  lemma TimeEnquiryAnswer(c: Conn, header: Bytes)
    requires Valid(c) && |header| == HEADER_LEN
    ensures var s := TimeEnquiry(c, header);
      var payload := header[PACKET_CONTROL2];
      && (s.outcome == Ok <==>
            LONG_BYTES <= payload <= c.window && Receive(c.input, payload).count == payload)
      && (s.outcome == Ok ==> s.conn.outgoing == c.outgoing + [[NULL, ACKNOWLEDGE, ENQUIRY, NULL]])
      && (s.outcome != Ok ==> s.conn.outgoing == c.outgoing)
      && s.conn.flags == c.flags
  {
  }

  /**
   * The RETURN_TIME reply is a well-formed TIME enquiry: a peer with a
   * window of at least eight bytes that receives it in one chunk reads the
   * header and the eight clock bytes and answers `{0,6,5,0}`.
   */
  lemma ReturnTimeReplyIsAnswered(c: Conn, now: Long, more: seq<Chunk>)
    requires Valid(c) && LONG_BYTES <= c.window && c.input == [Data(TimeFrame(now))] + more
    ensures var s := Read(c, now);
      && s.outcome == Ok && s.conn.input == more && s.conn.flags == c.flags
      && s.conn.outgoing == c.outgoing + [[NULL, ACKNOWLEDGE, ENQUIRY, NULL]]
  {
    var frame := TimeFrame(now);
    TimeFrameLayout(now);
    ReadWholeHeader(c, now, frame, more);
    var header := frame[..HEADER_LEN];
    var after := c.(input := [Data(frame[HEADER_LEN..])] + more, buf := Overlay(c.buf, header));
    TimeHeaderDispatch(c.flags, now);
    assert Handle(after, header, now) == TimeEnquiry(after, header);
    TimeEnquiryWhole(after, header, frame[HEADER_LEN..], more);
  }

  /** A whole header waiting at the front of the input is taken in one read and dispatched. */
  lemma ReadWholeHeader(c: Conn, now: Long, s: Bytes, more: seq<Chunk>)
    requires Valid(c) && HEADER_LEN <= c.window && HEADER_LEN <= |s| && c.input == [Data(s)] + more
    ensures var rest := if |s| == HEADER_LEN then more else [Data(s[HEADER_LEN..])] + more;
      Read(c, now) == Handle(c.(input := rest, buf := Overlay(c.buf, s[..HEADER_LEN])), s[..HEADER_LEN], now)
  {
    ReceiveFromWhole(s, more, HEADER_LEN);
  }

  /** A TIME enquiry announcing eight bytes whose payload waits whole in one chunk is acknowledged. */
  lemma TimeEnquiryWhole(c: Conn, header: Bytes, payload: Bytes, more: seq<Chunk>)
    requires Valid(c) && LONG_BYTES <= c.window && |header| == HEADER_LEN && header[PACKET_CONTROL2] == 8
    requires |payload| == LONG_BYTES && c.input == [Data(payload)] + more
    ensures var s := TimeEnquiry(c, header);
      && s.outcome == Ok && s.conn.input == more && s.conn.flags == c.flags
      && s.conn.outgoing == c.outgoing + [[NULL, ACKNOWLEDGE, ENQUIRY, NULL]]
  {
    ReceiveFromWhole(payload, more, LONG_BYTES);
  }

  /**
   * ESCAPE on a connection with nothing queued writes `{0,6,27,0}` at once
   * and closes; with frames queued, the oldest frame goes out instead and
   * the acknowledgement stays queued behind the others.
   */
  lemma EscapeAcknowledgesThenCloses(c: Conn)
    requires Valid(c) && HEADER_LEN <= c.window
    requires c.outgoing != [] ==> |c.outgoing[0]| <= c.window
    ensures var s := Escape(c);
      && s.outcome == Ok && s.conn.closed
      && (c.outgoing == [] ==> s.conn.wire == c.wire + [[NULL, ACKNOWLEDGE, ESCAPE, NULL]] && s.conn.outgoing == [])
      && (c.outgoing != [] ==> s.conn.outgoing == c.outgoing[1..] + [[NULL, ACKNOWLEDGE, ESCAPE, NULL]])
  {
    ForceSendWritesHead(c, Ack(ESCAPE));
  }
}
