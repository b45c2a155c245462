/**
 * The older static dispatcher of `Chopserver`, as functions of the
 * connection state: the slot table of `accept_new_client`, the whole-frame
 * `write`, the header `read` that throws, and `parse_header` with its
 * handlers. The methods of module `Chopserver` compute exactly these. The
 * lemmas state where this dispatcher agrees with the enum dispatcher of
 * `Connections` and where it does not.
 */
module Legacy {
  import opened Java
  import opened Results
  import opened Packet
  import opened Sockets
  import opened Transfer
  import opened Protocol
  import opened Connections
  import StatusTypes
  import Utf8

  // ---------------------------------------------------------------------
  // The slot table

  /** The first empty slot of the table, if there is one. */
  function FirstFree<K>(slots: seq<Option<K>>): (r: Option<nat>)
    ensures r.Some? ==> r.value < |slots| && slots[r.value].None?
    ensures r.Some? ==> forall j :: 0 <= j < r.value ==> slots[j].Some?
    ensures r.None? <==> forall j :: 0 <= j < |slots| ==> slots[j].Some?
  {
    if slots == [] then None
    else if slots[0].None? then Some(0)
    else
      match FirstFree(slots[1..])
      case None => None
      case Some(i) => Some(i + 1)
  }

  /** `accept_new_client`: the key goes into the first empty slot; with none, the table is unchanged. */
  function Accept<K>(slots: seq<Option<K>>, key: K): (r: seq<Option<K>>)
    ensures |r| == |slots|
    ensures forall j :: 0 <= j < |slots| ==> r[j] == (if FirstFree(slots) == Some(j) then Some(key) else slots[j])
    ensures forall j :: 0 <= j < |slots| && slots[j].Some? ==> r[j] == slots[j]
    ensures FirstFree(slots).None? <==> r == slots
  {
    match FirstFree(slots)
    case None => slots
    case Some(i) => slots[i := Some(key)]
  }

  /**
   * Accepting into a table whose occupied slots form a prefix fills the
   * next slot and keeps the prefix shape; a full table turns the key away.
   * So `n` connections accepted into an empty table land in slots
   * `0..n-1` in order.
   */
  lemma AcceptFillsInOrder<K>(slots: seq<Option<K>>, key: K, k: nat)
    requires k <= |slots|
    requires forall j :: 0 <= j < k ==> slots[j].Some?
    requires forall j :: k <= j < |slots| ==> slots[j].None?
    ensures var after := Accept(slots, key);
      && |after| == |slots|
      && (k < |slots| ==> after == slots[k := Some(key)])
      && (k == |slots| ==> after == slots)
      && forall j :: 0 <= j < |after| ==> (after[j].Some? <==> j < (if k < |slots| then k + 1 else k))
  {
    if k < |slots| {
      FirstFreeIs(slots, k);
    }
  }

  /** An empty slot with every slot before it taken is the first free one. */
  lemma {:induction false} FirstFreeIs<K>(slots: seq<Option<K>>, k: nat)
    requires k < |slots| && slots[k].None?
    requires forall j :: 0 <= j < k ==> slots[j].Some?
    ensures FirstFree(slots) == Some(k)
  {
    if k > 0 {
      assert slots[0].Some?;
      assert forall j :: 0 <= j < k - 1 ==> slots[1..][j] == slots[j + 1];
      FirstFreeIs(slots[1..], k - 1);
    }
  }

  // ---------------------------------------------------------------------
  // Writing

  /**
   * `write`: poll the head frame and write it whole from a buffer of its
   * own length, calling `socket.write` until nothing is left; drop
   * OP_WRITE when the queue is empty on entry or becomes empty.
   */
  function WholeWrite(c: Conn): (d: Conn)
    ensures |d.wire| == |c.wire| + (if c.outgoing == [] then 0 else 1) && d.wire[..|c.wire|] == c.wire
    ensures d.outgoing == if c.outgoing == [] then [] else c.outgoing[1..]
    ensures d.flags == c.flags && d.incoming == c.incoming && d.input == c.input && d.buf == c.buf && d.closed == c.closed
  {
    if c.outgoing == [] then c.(writeInterest := false)
    else ReadOnlyWhenDrained(c.(outgoing := c.outgoing[1..], wire := c.wire + [c.outgoing[0]]))
  }

  /**
   * The whole-frame `write` takes exactly the head of the queue and puts it
   * on the wire in one piece, whatever its length; it changes nothing else
   * and drops OP_WRITE exactly when the queue is then empty.
   */
  lemma WholeWriteTakesHead(c: Conn)
    requires c.outgoing != []
    ensures var d := WholeWrite(c);
      && d.outgoing == c.outgoing[1..]
      && d.wire == c.wire + [c.outgoing[0]]
      && (d.writeInterest <==> c.writeInterest && |c.outgoing| > 1)
      && d == c.(outgoing := d.outgoing, wire := d.wire, writeInterest := d.writeInterest)
  {
  }

  /** Two frames sent one after the other onto an empty queue leave whole and in order on the next two writes. */
  lemma WholeFramesLeaveInOrder(c: Conn, first: Bytes, second: Bytes)
    requires c.outgoing == []
    ensures var w1 := WholeWrite(Send(Send(c, first), second));
      var w2 := WholeWrite(w1);
      && w1.writeInterest && !w2.writeInterest
      && w2.outgoing == []
      && w2.wire == c.wire + [first, second]
  {
    var queued := Send(Send(c, first), second);
    assert queued.outgoing == [first, second];
    assert queued.outgoing[1..] == [second];
  }

  /**
   * For a head frame that fits the window (and a window that holds a
   * header), the enum `write` and the legacy `write` do the same thing.
   */
  lemma WritersAgreeOnFittingFrames(c: Conn)
    requires Valid(c) && HEADER_LEN <= c.window
    requires c.outgoing != [] && 0 < |c.outgoing[0]| <= c.window
    ensures Write(c) == Step(WholeWrite(c), Ok)
  {
    FittingFrameIsOneSegment(c.outgoing[0], c.window);
  }

  /**
   * For a head frame longer than the window, the enum `write` throws and
   * loses the frame, while the legacy `write` sends it whole; the
   * segmented `write` puts the very same bytes on the wire in pieces.
   */
  lemma WritersDifferOnLongFrames(c: Conn)
    requires Valid(c) && c.outgoing != [] && |c.outgoing[0]| > c.window
    ensures Write(c).outcome == Threw(BufferOverflow) && Write(c).conn.wire == c.wire
    ensures WholeWrite(c).wire == c.wire + [c.outgoing[0]]
    ensures var s := SegmentedWrite(c).conn;
      && s.wire[..|c.wire|] == c.wire
      && Concat(s.wire[|c.wire|..]) == c.outgoing[0]
      && |s.wire| > |c.wire| + 1
  {
    var frame := c.outgoing[0];
    var s := SegmentedWrite(c).conn;
    SegmentsConcat(frame, c.window);
    SegmentsHead(frame, c.window);
    assert frame[c.window..] != [];
    assert s.wire[|c.wire|..] == Segments(frame, c.window);
  }

  // ---------------------------------------------------------------------
  // Reading a header

  /**
   * `read`: a fresh four-byte buffer and one read. The end of the stream
   * and a short read throw IOException; a status byte outside the table of
   * constants throws ArrayIndexOutOfBoundsException at `values()[status]`;
   * otherwise the header is dropped, since the call to `parse_header` is
   * commented out.
   */
  function HeaderRead(c: Conn): (s: Step)
    ensures var r := Receive(c.input, HEADER_LEN);
      && s.conn == c.(input := r.rest)
      && (s.outcome == Ok <==> r.count == HEADER_LEN && StatusTypes.FromOrdinal(r.got[PACKET_STATUS]).Some?)
      && (s.outcome == Threw(IOException("Client connection closed")) <==> AtEnd(c.input))
  {
    var r := Receive(c.input, HEADER_LEN);
    var after := c.(input := r.rest);
    if r.count < 0 then Step(after, Threw(IOException("Client connection closed")))
    else if r.count < HEADER_LEN then Step(after, Threw(IOException("Incomplete header received")))
    else if StatusTypes.FromOrdinal(r.got[PACKET_STATUS]).None? then Step(after, Threw(ArrayIndexOutOfBounds))
    else Step(after, Ok)
  }

  /**
   * The two `read`s part ways on a header that does not arrive whole: the
   * enum `read` returns quietly, the legacy one throws IOException. On a
   * whole header the enum `read` dispatches it, while the legacy one
   * consumes it and neither replies nor changes a flag.
   */
  lemma ReadsDiffer(c: Conn, now: Long)
    requires Valid(c) && HEADER_LEN <= c.window
    ensures var r := Receive(c.input, HEADER_LEN);
      var legacy := HeaderRead(c);
      && (r.count != HEADER_LEN ==>
            && Read(c, now).outcome == Ok && Read(c, now).conn.outgoing == c.outgoing
            && legacy.outcome.Threw? && legacy.outcome.exception.IOException?)
      && (r.count == HEADER_LEN ==>
            && Read(c, now) == Handle(c.(input := r.rest, buf := Overlay(c.buf, r.got)), r.got, now)
            && legacy.conn.outgoing == c.outgoing && legacy.conn.flags == c.flags
            && legacy.conn.incoming == c.incoming)
  {
  }

  // ---------------------------------------------------------------------
  // Text sections

  /** How the unknown-length loop of `parse_text` ends: whether it found END_TEXT, the bytes it read, and the input left. */
  datatype Scan = Scan(found: bool, body: Bytes, rest: seq<Chunk>)

  /**
   * The unknown-length loop of `parse_text`: each pass reads into a fresh
   * zeroed window and looks for END_TEXT among the bytes it got. At the
   * end of the stream every read returns -1 and changes nothing, so the
   * loop never ends; that is `found` false.
   */
  function DropRead(input: seq<Chunk>, w: nat): (s: Scan)
    requires w > 0
    ensures s.found <==> END_TEXT in Stream(input)
    ensures s.found ==> END_TEXT in s.body
    ensures Stream(input) == s.body + Stream(s.rest)
    ensures !s.found ==> AtEnd(s.rest)
    decreases Size(input)
  {
    if AtEnd(input) then Scan(false, [], input)
    else
      var r := Receive(input, w);
      ReceiveConserves(input, w);
      if END_TEXT in r.got then Scan(true, r.got, r.rest)
      else
        var next := DropRead(r.rest, w);
        assert Stream(input) == (r.got + next.body) + Stream(next.rest);
        Scan(next.found, r.got + next.body, next.rest)
  }

  /**
   * `parse_text`. Both controls 0: the unknown-length loop, which never
   * ends when the stream ends without END_TEXT. Otherwise the body length
   * is `control1 * control2` and `bufferCount` window buffers are
   * allocated (a negative count fails the allocation) and filled by a
   * single scattering read, whatever it returns. Both ways end by queuing
   * `{0,6,2,0}`.
   */
  function LegacyText(c: Conn, header: Bytes): (s: Step)
    requires Valid(c) && |header| == HEADER_LEN
    ensures Valid(s.conn) && Same(c, s.conn)
    ensures s.conn.flags == c.flags && s.conn.incoming == c.incoming && s.conn.buf == c.buf && s.conn.wire == c.wire
    ensures s.outcome == Ok ==> s.conn.outgoing == c.outgoing + [Ack(START_TEXT)]
    ensures s.outcome != Ok ==> s.conn.outgoing == c.outgoing
  {
    if header[PACKET_CONTROL1] == 0 && header[PACKET_CONTROL2] == 0 then
      var scan := DropRead(c.input, c.window);
      if !scan.found then Step(c.(input := scan.rest), Diverges)
      else Step(Send(c.(input := scan.rest), Ack(START_TEXT)), Ok)
    else
      var count := BufferCount(AnnouncedLength(header), c.window);
      if count < 0 then Step(c, Threw(NegativeArraySize))
      else
        var r := Receive(c.input, Span(count, c.window));
        Step(Send(c.(input := r.rest), Ack(START_TEXT)), Ok)
  }

  /**
   * With both controls 0 the legacy loop ends exactly when END_TEXT is in
   * the stream, having consumed the stream up to the read that brought it;
   * otherwise it never ends, where the enum handler at the end of the
   * stream throws.
   */
  lemma UnknownLengthTextEnds(c: Conn, header: Bytes)
    requires Valid(c) && |header| == HEADER_LEN
    requires header[PACKET_CONTROL1] == 0 && header[PACKET_CONTROL2] == 0
    ensures var s := LegacyText(c, header);
      && (s.outcome == Ok <==> END_TEXT in Stream(c.input))
      && (s.outcome != Ok ==> s.outcome == Diverges && Stream(s.conn.input) == [])
      && s.conn.input == DropRead(c.input, c.window).rest
    ensures AtEnd(c.input) ==> LegacyText(c, header).outcome == Diverges && StartText(c, header).outcome == Threw(IndexOutOfBounds)
  {
    UnknownLengthText(c, header);
  }

  /**
   * Stale bytes matter only to the enum handler: a short segment without
   * END_TEXT ends its read when the old window contents hold one, while the
   * legacy handler, scanning a fresh window each pass, reads on and never
   * ends when the rest of the stream holds no END_TEXT either. The enum
   * handler delivers the header and the short segment unless decoding
   * them for its log line shortens them.
   */
  lemma StaleMarkerStopsOnlyTheClient(c: Conn, header: Bytes, s: Bytes, more: seq<Chunk>)
    requires Valid(c) && |header| == HEADER_LEN
    requires header[PACKET_CONTROL1] == 0 && header[PACKET_CONTROL2] == 0
    requires |s| <= c.window && END_TEXT !in s && END_TEXT in c.buf[|s|..]
    requires c.input == [Data(s)] + more && END_TEXT !in Stream(more)
    ensures var e := StartText(c, header);
      && (e.outcome == Ok || e.outcome == Threw(StringIndexOutOfBounds))
      && (e.outcome == Ok <==> Utf8.OneForOne(header + s))
      && (e.outcome == Ok ==> e.conn.incoming == c.incoming + [header + s])
      && e.conn.input == more
    ensures LegacyText(c, header).outcome == Diverges
  {
    UnknownReadStaleMarker(s, more, c.window, c.buf);
    assert c.input[1..] == more;
    assert Stream(c.input) == s + Stream(more);
    UnknownLengthTextEnds(c, header);
  }

  /**
   * The scattering read takes up to `bufferCount` whole windows. When the
   * announced length is not a multiple of the window and the next frame
   * has already arrived in the same chunk, the legacy handler swallows
   * the next frame's bytes, while the enum handler reads exactly the body
   * and leaves them for the next `read`, whether or not its log line then
   * throws.
   */
  lemma KnownLengthOverRead(c: Conn, header: Bytes, body: Bytes, next: Bytes, more: seq<Chunk>)
    requires Valid(c) && |header| == HEADER_LEN
    requires header[PACKET_CONTROL1] > 0 && header[PACKET_CONTROL2] > 0
    requires AnnouncedLength(header) == |body| && next != []
    requires |body| + |next| <= Span(BufferCount(|body|, c.window), c.window)
    requires c.input == [Data(body + next)] + more
    ensures LegacyText(c, header) == Step(Send(c.(input := more), Ack(START_TEXT)), Ok)
    ensures var e := StartText(c, header);
      && (e.outcome == Ok <==> Utf8.OneForOne(header + body))
      && (e.outcome != Ok ==> e.outcome == Threw(StringIndexOutOfBounds))
      && e.conn.input == [Data(next)] + more
  {
    BufferCountIsCeiling(|body|, c.window);
    var s := body + next;
    assert [Data(s)] + more == c.input;
    KnownLengthTextInOneChunk(c, header, s, more);
    assert s[..|body|] == body && s[|body|..] == next;
  }

  /**
   * Signed control bytes: `{0,2,-1,5}` announces -5 bytes, which makes one
   * window buffer in the legacy handler (the remainder -5 is not 0) and
   * is acknowledged, while the enum handler fails its allocation; a
   * product of -16256 makes a negative count of buffers. The window is
   * the `bufsize` of 255 bytes that `Chopserver.main` sets.
   */
  lemma SignedLengths(c: Conn)
    requires Valid(c) && c.window == 255
    ensures LegacyText(c, [0, 2, -1, 5]).outcome == Ok
    ensures StartText(c, [0, 2, -1, 5]) == Step(c, Threw(NegativeArraySize))
    ensures LegacyText(c, [0, 2, -128, 127]) == Step(c, Threw(NegativeArraySize))
  {
    assert BufferCount(-5, 255) == 1;
    assert BufferCount(-16256, 255) == -62;
  }

  // ---------------------------------------------------------------------
  // Dispatch

  /** `parse_header`: the switch over the status byte and the handler it selects. */
  function LegacyHandle(c: Conn, header: Bytes, now: Long): (s: Step)
    requires Valid(c) && |header| == HEADER_LEN
    ensures Valid(s.conn) && Same(c, s.conn)
    ensures s.conn.incoming == c.incoming && s.conn.wire == c.wire && s.conn.closed == c.closed
  {
    match LegacyDispatch(c.flags, header, now)
    case Done(e) => Step(Apply(c, e), Ok)
    case TextBody => LegacyText(c, header)
  }

  /**
   * On every header both dispatchers handle alike (the IDLE/WAKEUP
   * handshake, ACKNOWLEDGE and NEG_ACKNOWLEDGE of a known status, the
   * NORMAL, RETURN and RETURN_TIME enquiries), the whole handling agrees:
   * same flags, same replies, same input left.
   */
  lemma HandlersAgree(c: Conn, h: Bytes, now: Long)
    requires Valid(c) && |h| == HEADER_LEN
    requires var status, control1 := h[PACKET_STATUS], h[PACKET_CONTROL1];
      || status == IDLE || status == WAKEUP
      || ((status == ACKNOWLEDGE || status == NEG_ACKNOWLEDGE) && 0 <= control1 < StatusTypes.VALUES_COUNT)
      || (status == ENQUIRY && control1 in {NORMAL, RETURN, RETURN_TIME})
    ensures LegacyHandle(c, h, now) == Handle(c, h, now)
  {
    DispatchersAgree(c.flags, h, now);
  }

  /** The legacy handlers, like the enum ones, keep both flags among the values 0, 22 and 24. */
  lemma LegacyFlagsStayValid(c: Conn, h: Bytes, now: Long)
    requires Valid(c) && |h| == HEADER_LEN && ValidFlags(c.flags)
    ensures ValidFlags(LegacyHandle(c, h, now).conn.flags)
  {
    var status, control1 := h[PACKET_STATUS], h[PACKET_CONTROL1];
    if status == ACKNOWLEDGE {
      assert ValidFlags(LegacyAcknowledged(c.flags, control1));
    }
  }
}
