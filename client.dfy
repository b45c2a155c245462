/**
 * `Client`: one Chop connection, with the fields its methods update in
 * place, and the `parse` handlers of the status and enquiry constants,
 * which act on a client. Every method is proved to compute the corresponding
 * function of `Connections` or `Protocol`; the socket is the `input` the peer sent
 * and the `wire` the writes produced.
 */
module Clients {
  import opened Java
  import opened Results
  import opened Packet
  import opened Sockets
  import opened Transfer
  import opened Protocol
  import opened Connections
  import StatusTypes
  import EnquiryTypes
  import Utf8

  class Client {
    const window: nat
    /** The most one `socket.write` call accepts; at least one byte, so the spin loop ends. */
    const writeCap: nat
    const inBuffer: array<JByte>
    var incomingFlag: int
    var outgoingFlag: int
    var incoming: seq<Bytes>
    var outgoing: seq<Bytes>
    var writeInterest: bool
    var closed: bool
    var input: seq<Chunk>
    var wire: seq<Bytes>

    /** The buffer sizes are positive and the read buffer holds one window; all fixed at construction. */
    predicate Valid()
    {
      window > 0 && writeCap > 0 && inBuffer.Length == window
    }

    /** The connection's state as a value. */
    function State(): Conn
      reads this, inBuffer
    {
      Conn(window, writeCap, Flags(incomingFlag, outgoingFlag), incoming, outgoing,
           writeInterest, closed, input, inBuffer[..], wire)
    }

    /** The server-side constructor: both flags 0, empty queues, a zeroed buffer of `window` bytes, registered for reading. */
    constructor (window: nat, writeCap: nat, input: seq<Chunk>)
      requires window > 0 && writeCap > 0
      ensures Valid() && State() == New(window, writeCap, input) && fresh(inBuffer)
    {
      this.window := window;
      this.writeCap := writeCap;
      this.inBuffer := new JByte[window](_ => 0);
      incomingFlag := 0;
      outgoingFlag := 0;
      incoming := [];
      outgoing := [];
      writeInterest := false;
      closed := false;
      this.input := input;
      wire := [];
      new;
      assert inBuffer[..] == Zeros(window);
    }

    /** `send`: queue the frame at the tail and add OP_WRITE to the interest set. */
    method Send(frame: Bytes)
      modifies this
      ensures State() == Connections.Send(old(State()), frame)
    {
      outgoing := outgoing + [frame];
      writeInterest := true;
    }

    /**
     * The segment loop of `write`: `bufferCount` times, put the next
     * `min(W, remaining)` bytes into `outBuffer` and write them out.
     */
    method FlushSegments(frame: Bytes)
      requires Valid()
      modifies this
      ensures State() == Flush(old(State()), frame)
    {
      ghost var s0 := State();
      var total: nat := 0;
      var remaining := |frame|;
      var bufferCount := CountSegments(|frame|, window);
      for i := 0 to bufferCount
        invariant total + remaining == |frame|
        invariant SegmentsLeft(remaining, window, bufferCount - i)
        invariant FlushPending(s0, frame, total)
      {
        SegmentsLeftStep(remaining, window, bufferCount - i);
        var sent := FlushSegment(s0, frame, total, remaining);
        remaining := remaining - sent;
        total := total + sent;
      }
      NoSegmentsLeft(remaining, window);
      assert frame[total..] == [];
    }

    /**
     * Part way through the segment loop, which started in state `s0`: the
     * segments written so far followed by those of the rest of the frame are
     * all the frame's segments, and only the wire has changed.
     */
    ghost predicate FlushPending(s0: Conn, frame: Bytes, total: nat)
      requires Valid()
      reads this, inBuffer
    {
      && total <= |frame|
      && State() == s0.(wire := wire)
      && wire + Segments(frame[total..], window) == s0.wire + Segments(frame, window)
    }

    /** One pass of the segment loop: write the next `min(W, remaining)` bytes of the frame. */
    method FlushSegment(ghost s0: Conn, frame: Bytes, total: nat, remaining: nat) returns (sent: nat)
      requires Valid() && remaining > 0 && total + remaining == |frame| && FlushPending(s0, frame, total)
      modifies this
      ensures sent == Min(window, remaining) && FlushPending(s0, frame, total + sent)
    {
      var expected := if window > remaining then remaining else window;
      SegmentsFrom(frame, total, window);
      var segment := frame[total .. total + expected];
      ghost var rest := Segments(frame[total + expected..], window);
      assert (wire + [segment]) + rest == wire + ([segment] + rest);
      sent := WriteSegment(segment);
    }

    /**
     * One flush of `outBuffer`: `socket.write` is called until nothing is
     * left, each call taking at most `writeCap` bytes.
     */
    method WriteSegment(segment: Bytes) returns (sent: nat)
      requires Valid()
      modifies this
      ensures sent == |segment| && State() == old(State()).(wire := old(wire) + [segment])
    {
      sent := 0;
      while sent < |segment|
        invariant sent <= |segment|
      {
        sent := sent + Min(writeCap, |segment| - sent);
      }
      wire := wire + [segment];
    }

    /**
     * `write`, as written: the whole polled frame is put into `outBuffer`
     * before the segment loop, which overflows for a frame longer than the
     * window.
     */
    method Write() returns (r: Outcome)
      requires Valid()
      modifies this
      ensures Step(State(), r) == Connections.Write(old(State()))
    {
      if outgoing == [] {
        writeInterest := false;
        return Ok;
      }
      var sending := outgoing[0];
      outgoing := outgoing[1..];
      if |sending| > window {
        return Threw(BufferOverflow);
      }
      if window < HEADER_LEN {
        return Threw(IndexOutOfBounds);
      }
      FlushSegments(sending);
      if outgoing == [] {
        writeInterest := false;
      }
      return Ok;
    }

    /** `write` without the whole-frame `put`: the segment loop alone sends the frame. */
    method WriteSegmented() returns (r: Outcome)
      requires Valid()
      modifies this
      ensures Step(State(), r) == SegmentedWrite(old(State()))
    {
      if outgoing == [] {
        writeInterest := false;
        return Ok;
      }
      var sending := outgoing[0];
      outgoing := outgoing[1..];
      FlushSegments(sending);
      if outgoing == [] {
        writeInterest := false;
      }
      return Ok;
    }

    /** `forceSend`: queue the frame, then write once. */
    method ForceSend(frame: Bytes) returns (r: Outcome)
      requires Valid()
      modifies this
      ensures Step(State(), r) == Connections.ForceSend(old(State()), frame)
    {
      Send(frame);
      r := Write();
    }

    /** `shutdown`: cancel the key and close the socket. */
    method Shutdown()
      modifies this
      ensures State() == old(State()).(closed := true)
    {
      closed := true;
    }

    /**
     * `socket.read(inBuffer)` with the buffer cleared and limited to `room`
     * bytes: the bytes received land at the start of the array.
     */
    method ReceiveInto(room: nat) returns (count: int)
      requires Valid() && room <= window
      modifies this, inBuffer
      ensures Valid()
      ensures var r := Receive(old(input), room);
        count == r.count && (count >= 0 ==> inBuffer[..count] == r.got) && State() == old(State()).(input := r.rest, buf := Overlay(old(inBuffer[..]), r.got))
    {
      var r := Receive(input, room);
      input := r.rest;
      forall i | 0 <= i < |r.got| {
        inBuffer[i] := r.got[i];
      }
      assert inBuffer[..] == Overlay(old(inBuffer[..]), r.got);
      count := r.count;
    }

    /**
     * Part way through the known-length loop: the loop started in state `s0`,
     * has collected `body`, and what is left of the read, run from here, ends
     * the whole read as `run0`. Only the input and the buffer have changed.
     */
    ghost predicate KnownPending(s0: Conn, body: Bytes, remaining: nat, run0: Run)
      requires Valid()
      reads this, inBuffer
    {
      && State() == s0.(input := input, buf := inBuffer[..])
      && Prepend(body, KnownRead(input, window, remaining, inBuffer[..])) == run0
    }

    /**
     * One pass of the known-length loop: read `min(W, remaining)` bytes and
     * return the segment that arrived. A whole segment keeps the loop on
     * course; a short one ends the read as it ends.
     */
    method ReceiveSegment(ghost s0: Conn, remaining: nat, ghost body: Bytes, ghost run0: Run) returns (read: int, got: Bytes)
      requires Valid() && remaining > 0 && KnownPending(s0, body, remaining, run0)
      modifies this, inBuffer
      ensures read == Min(window, remaining) ==> KnownPending(s0, body + got, remaining - read, run0)
      ensures read != Min(window, remaining) ==>
        run0 == Run(false, body, input, inBuffer[..]) && State() == s0.(input := input, buf := inBuffer[..])
    {
      ghost var r := Receive(input, Min(window, remaining));
      ghost var buf' := Overlay(inBuffer[..], r.got);
      KnownReadStep(input, window, remaining, inBuffer[..], body, run0);
      read := ReceiveInto(Min(window, remaining));
      got := if read >= 0 then inBuffer[..read] else [];
      assert input == r.rest && inBuffer[..] == buf';
      assert State() == s0.(input := r.rest, buf := buf');
    }

    /**
     * `read`: limit `inBuffer` to the header, read once, and give up quietly
     * unless exactly four bytes came; then dispatch on the status byte.
     */
    method Read(now: Long) returns (r: Outcome)
      requires Valid()
      modifies this, inBuffer
      ensures Valid() && Step(State(), r) == Connections.Read(old(State()), now)
    {
      if window < HEADER_LEN {
        return Threw(IllegalArgument);
      }
      var bytesRead := ReceiveInto(HEADER_LEN);
      if bytesRead < 0 {
        return Ok;
      } else if bytesRead != HEADER_LEN {
        return Ok;
      }
      assert inBuffer[..HEADER_LEN] == Receive(old(input), HEADER_LEN).got;
      r := DispatchHeader(this, now);
    }

    /**
     * The catch clauses of `read`: an ArrayIndexOutOfBoundsException or
     * UnsupportedOperationException is answered with
     * `NEG_ACKNOWLEDGE.bytes(status)`; any other outcome passes through.
     */
    method Catch(status: JByte, thrown: Outcome) returns (r: Outcome)
      modifies this
      ensures thrown == Threw(ArrayIndexOutOfBounds) || thrown == Threw(UnsupportedOperation) ==>
                r == Ok && State() == Connections.Send(old(State()), Nak(status))
      ensures !(thrown == Threw(ArrayIndexOutOfBounds) || thrown == Threw(UnsupportedOperation)) ==>
                r == thrown && State() == old(State())
    {
      r := thrown;
      if thrown == Threw(ArrayIndexOutOfBounds) || thrown == Threw(UnsupportedOperation) {
        Send(StatusTypes.StatusBytes1(StatusTypes.NegAcknowledge, status));
        r := Ok;
      }
    }
  }

  /**
   * The `try` block of `read` once a whole header is in `inBuffer`:
   * `fromOrdinal(status)` and the constant's `parse`. The handlers of
   * START_TEXT, WAKEUP, IDLE and ESCAPE throw neither exception that
   * `read` catches; the others are dispatched by `DispatchCaught`.
   */
  method DispatchHeader(c: Client, now: Long) returns (r: Outcome)
    requires c.Valid() && HEADER_LEN <= c.window
    modifies c, c.inBuffer
    ensures c.Valid() && Step(c.State(), r) == Handle(old(c.State()), old(c.inBuffer[..HEADER_LEN]), now)
  {
    var status := StatusTypes.FromOrdinal(c.inBuffer[PACKET_STATUS]);
    match status {
      case Some(StartText) => r := ParseStartText(c);
      case Some(Wakeup) => r := ParseWakeup(c);
      case Some(Idle) => r := ParseIdle(c);
      case Some(Escape) => r := ParseEscape(c);
      case _ => r := DispatchCaught(c, now);
    }
  }

  /** A status byte whose handler may throw what `read` catches, or that names no constant. */
  predicate MayThrow(status: Option<StatusTypes.StatusType>)
  {
    status.None? || !(status.value.StartText? || status.value.Wakeup? || status.value.Idle? || status.value.Escape?)
  }

  /**
   * The rest of the `try` block, with its `catch`: an unknown status byte
   * and an unhandled constant throw, and ENQUIRY, ACKNOWLEDGE and
   * NEG_ACKNOWLEDGE may throw; `read` answers each caught exception with
   * a NEG_ACKNOWLEDGE of the status byte.
   */
  method DispatchCaught(c: Client, now: Long) returns (r: Outcome)
    requires c.Valid() && HEADER_LEN <= c.window && MayThrow(StatusTypes.FromOrdinal(c.inBuffer[PACKET_STATUS]))
    modifies c, c.inBuffer
    ensures Step(c.State(), r) == Handle(old(c.State()), old(c.inBuffer[..HEADER_LEN]), now)
  {
    ghost var header := c.inBuffer[..HEADER_LEN];
    var packStatus := c.inBuffer[PACKET_STATUS];
    assert header[PACKET_STATUS] == packStatus && header[PACKET_CONTROL1] == c.inBuffer[PACKET_CONTROL1];
    var status := StatusTypes.FromOrdinal(packStatus);
    if status.None? {
      r := c.Catch(packStatus, Threw(ArrayIndexOutOfBounds));
      return;
    }
    match status.value {
      case Enquiry =>
        r := DispatchEnquiry(c, now);
        return;
      case Acknowledge => r := ParseAcknowledge(c);
      case NegAcknowledge => r := ParseNegAcknowledge(c);
      case _ => r := Threw(UnsupportedOperation);
    }
    r := c.Catch(packStatus, r);
  }

  /** ENQUIRY inside the `try` of `read`: an unknown enquiry type is caught and refused. */
  method DispatchEnquiry(c: Client, now: Long) returns (r: Outcome)
    requires c.Valid() && HEADER_LEN <= c.window && StatusTypes.FromOrdinal(c.inBuffer[PACKET_STATUS]) == Some(StatusTypes.Enquiry)
    modifies c, c.inBuffer
    ensures Step(c.State(), r) == Handle(old(c.State()), old(c.inBuffer[..HEADER_LEN]), now)
  {
    ghost var header := c.inBuffer[..HEADER_LEN];
    var packStatus := c.inBuffer[PACKET_STATUS];
    assert header[PACKET_STATUS] == packStatus && header[PACKET_CONTROL1] == c.inBuffer[PACKET_CONTROL1];
    HandleEnquiry(c.State(), header, now);
    r := ParseEnquiry(c, now);
    r := c.Catch(packStatus, r);
  }

  // ---------------------------------------------------------------------
  // The `parse` overrides of the status constants

  /** `IDLE.parse`. */
  method ParseIdle(c: Client) returns (r: Outcome)
    modifies c
    ensures r == Ok && c.State() == Apply(old(c.State()), IdleRequest(old(c.State()).flags))
  {
    if c.incomingFlag == NULL {
      c.incomingFlag := IDLE;
      c.Send(StatusTypes.StatusBytes1(StatusTypes.Acknowledge, IDLE));
    } else {
      c.Send(StatusTypes.StatusBytes1(StatusTypes.NegAcknowledge, IDLE));
    }
    return Ok;
  }

  /** `WAKEUP.parse`. */
  method ParseWakeup(c: Client) returns (r: Outcome)
    modifies c
    ensures r == Ok && c.State() == Apply(old(c.State()), WakeupRequest(old(c.State()).flags))
  {
    if c.incomingFlag == IDLE {
      c.incomingFlag := NULL;
      c.Send(StatusTypes.StatusBytes1(StatusTypes.Acknowledge, WAKEUP));
    } else {
      c.Send(StatusTypes.StatusBytes1(StatusTypes.NegAcknowledge, WAKEUP));
    }
    return Ok;
  }

  /** `ACKNOWLEDGE.parse`: `fromOrdinal(control1)`, then the switch over the confirmed constant. */
  method ParseAcknowledge(c: Client) returns (r: Outcome)
    requires c.Valid() && HEADER_LEN <= c.window
    modifies c
    ensures var confirm := StatusTypes.FromOrdinal(old(c.inBuffer[PACKET_CONTROL1]));
      && (confirm.None? ==> r == Threw(ArrayIndexOutOfBounds) && c.State() == old(c.State()))
      && (confirm.Some? ==> r == Ok && c.State() == old(c.State()).(flags := Acknowledged(old(c.State()).flags, confirm.value)))
  {
    var confirm := StatusTypes.FromOrdinal(c.inBuffer[PACKET_CONTROL1]);
    if confirm.None? {
      return Threw(ArrayIndexOutOfBounds);
    }
    match confirm.value {
      case Wakeup => c.incomingFlag := StatusTypes.Ordinal(StatusTypes.Null);
      case Idle => c.incomingFlag := StatusTypes.Ordinal(StatusTypes.Idle);
      case Escape =>
        c.incomingFlag := StatusTypes.Ordinal(StatusTypes.Cancel);
        c.outgoingFlag := StatusTypes.Ordinal(StatusTypes.Cancel);
      case _ =>
    }
    return Ok;
  }

  /** `NEG_ACKNOWLEDGE.parse`: only `fromOrdinal(control1)`, which may throw. */
  method ParseNegAcknowledge(c: Client) returns (r: Outcome)
    requires c.Valid() && HEADER_LEN <= c.window
    ensures r == (if StatusTypes.FromOrdinal(c.inBuffer[PACKET_CONTROL1]).None? then Threw(ArrayIndexOutOfBounds) else Ok)
  {
    var confirm := StatusTypes.FromOrdinal(c.inBuffer[PACKET_CONTROL1]);
    if confirm.None? {
      return Threw(ArrayIndexOutOfBounds);
    }
    return Ok;
  }

  /** `ESCAPE.parse`: force out `ACKNOWLEDGE.bytes(ESCAPE)`, then shut down. */
  method ParseEscape(c: Client) returns (r: Outcome)
    requires c.Valid()
    modifies c
    ensures Step(c.State(), r) == Escape(old(c.State()))
  {
    r := c.ForceSend(StatusTypes.StatusBytes1(StatusTypes.Acknowledge, ESCAPE));
    if r != Ok {
      return r;
    }
    c.Shutdown();
    return Ok;
  }

  /** `ENQUIRY.parse`: `EnquiryType.fromOrdinal(control1)` and that constant's `parse`. */
  method ParseEnquiry(c: Client, now: Long) returns (r: Outcome)
    requires c.Valid() && HEADER_LEN <= c.window
    modifies c, c.inBuffer
    ensures c.Valid()
    ensures var header := old(c.inBuffer[..HEADER_LEN]);
      match EnquiryTypes.FromOrdinal(header[PACKET_CONTROL1])
      case None => r == Threw(ArrayIndexOutOfBounds) && c.State() == old(c.State())
      case Some(Normal) => r == Ok && c.State() == Connections.Send(old(c.State()), [NULL, ACKNOWLEDGE, ENQUIRY, NULL])
      case Some(Return) => r == Ok && c.State() == Connections.Send(old(c.State()), [NULL, ENQUIRY, NULL, NULL])
      case Some(Time) => Step(c.State(), r) == TimeEnquiry(old(c.State()), header)
      case Some(ReturnTime) => r == Ok && c.State() == Connections.Send(old(c.State()), TimeFrame(now))
  {
    var kind := EnquiryTypes.FromOrdinal(c.inBuffer[PACKET_CONTROL1]);
    if kind.None? {
      return Threw(ArrayIndexOutOfBounds);
    }
    match kind.value
    case Normal =>
      c.Send([NULL, ACKNOWLEDGE, ENQUIRY, NULL]);
      r := Ok;
    case Return =>
      c.Send([NULL, ENQUIRY, NULL, NULL]);
      r := Ok;
    case Time =>
      r := ParseTime(c);
    case ReturnTime =>
      c.Send(TimeFrame(now));
      r := Ok;
  }

  /** `TIME.parse`: read exactly `control2` payload bytes, decode a long from them, acknowledge. */
  method ParseTime(c: Client) returns (r: Outcome)
    requires c.Valid() && HEADER_LEN <= c.window
    modifies c, c.inBuffer
    ensures c.Valid() && Step(c.State(), r) == TimeEnquiry(old(c.State()), old(c.inBuffer[..HEADER_LEN]))
  {
    ghost var header := c.inBuffer[..HEADER_LEN];
    var payload := c.inBuffer[PACKET_CONTROL2];
    if payload < 0 || payload > c.window {
      return Threw(IllegalArgument);
    }
    var read := c.ReceiveInto(payload);
    if read != payload {
      return Threw(IOException("Provided data section is not at specified length"));
    }
    if payload < LONG_BYTES {
      return Threw(BufferUnderflow);
    }
    c.Send([NULL, ACKNOWLEDGE, ENQUIRY, NULL]);
    return Ok;
  }

  /** `START_TEXT.parse`: read the body, log it as a string, offer header and body upward, acknowledge. */
  method ParseStartText(c: Client) returns (r: Outcome)
    requires c.Valid() && HEADER_LEN <= c.window
    modifies c, c.inBuffer
    ensures c.Valid() && Step(c.State(), r) == StartText(old(c.State()), old(c.inBuffer[..HEADER_LEN]))
  {
    var header := c.inBuffer[..HEADER_LEN];
    var segmentCount := c.inBuffer[PACKET_CONTROL1];
    var segmentWidth := c.inBuffer[PACKET_CONTROL2];
    var ret: Bytes;
    if segmentCount == 0 && segmentWidth == 0 {
      var ok, body := UnknownLengthRead(c);
      if !ok {
        return Threw(IndexOutOfBounds);
      }
      ret := header + body;
    } else {
      var remaining := segmentCount as int * segmentWidth as int;
      if HEADER_LEN + remaining < 0 {
        return Threw(NegativeArraySize);
      }
      if remaining < 0 {
        return Threw(IndexOutOfBounds);
      }
      var ok, body := KnownLengthRead(c, remaining);
      if !ok {
        return Threw(IOException(""));
      }
      ret := header + body;
    }
    if Utf8.DecodedLength(ret) < |ret| {
      return Threw(StringIndexOutOfBounds);
    }
    c.incoming := c.incoming + [ret];
    c.Send([NULL, ACKNOWLEDGE, START_TEXT, NULL]);
    return Ok;
  }

  /** `bufferCount`, in Java's int arithmetic: exactly the number of window-sized segments `len` bytes need. */
  method CountSegments(len: nat, w: nat) returns (count: nat)
    requires w > 0
    ensures SegmentsLeft(len, w, count)
  {
    BufferCountIsCeiling(len, w);
    count := JavaDiv(len, w) + (if JavaRem(len, w) != 0 then 1 else 0);
  }

  /**
   * The known-length loop: `bufferCount` reads of `min(W, remaining)`
   * bytes, each of which must fill its segment; the segments, in order,
   * are copied into the assembled array after the header.
   */
  method KnownLengthRead(c: Client, length: nat) returns (ok: bool, body: Bytes)
    requires c.Valid()
    modifies c, c.inBuffer
    ensures var run := KnownRead(old(c.input), c.window, length, old(c.inBuffer[..]));
      && ok == run.ok
      && c.State() == old(c.State()).(input := run.rest, buf := run.buf)
      && (ok ==> body == run.body)
  {
    ghost var s0, run0 := c.State(), KnownRead(c.input, c.window, length, c.inBuffer[..]);
    var bufferCount := CountSegments(length, c.window);
    ok, body := ReceiveSegments(c, bufferCount, length, s0, run0);
  }

  /** The `bufferCount` passes of the known-length loop, collecting each whole segment into `body`. */
  method ReceiveSegments(c: Client, bufferCount: nat, length: nat, ghost s0: Conn, ghost run0: Run)
      returns (ok: bool, body: Bytes)
    requires c.Valid() && SegmentsLeft(length, c.window, bufferCount) && c.KnownPending(s0, [], length, run0)
    modifies c, c.inBuffer
    ensures ok ==> c.KnownPending(s0, body, 0, run0)
    ensures !ok ==> run0 == Run(false, body, c.input, c.inBuffer[..]) && c.State() == s0.(input := c.input, buf := c.inBuffer[..])
  {
    var remaining := length;
    body := [];
    for i := 0 to bufferCount
      invariant SegmentsLeft(remaining, c.window, bufferCount - i)
      invariant c.KnownPending(s0, body, remaining, run0)
    {
      SegmentsLeftStep(remaining, c.window, bufferCount - i);
      var read, got := c.ReceiveSegment(s0, remaining, body, run0);
      if read != Min(c.window, remaining) {
        return false, body;
      }
      body := body + got;
      remaining := remaining - read;
    }
    NoSegmentsLeft(remaining, c.window);
    return true, body;
  }

  /** Whether END_TEXT occurs anywhere in the array: the scan over `inBuffer.array()`. */
  method ScanForEndText(a: array<JByte>) returns (found: bool)
    ensures found <==> END_TEXT in a[..]
  {
    found := false;
    for i := 0 to a.Length
      invariant !found
      invariant END_TEXT !in a[..i]
    {
      if a[i] == END_TEXT {
        found := true;
        break;
      }
    }
  }

  /**
   * The unknown-length loop: read whole windows, scanning the entire array,
   * stale bytes included, for END_TEXT, and append what was read to the
   * pipe. A read of -1 fails the append.
   */
  method UnknownLengthRead(c: Client) returns (ok: bool, body: Bytes)
    requires c.Valid()
    modifies c, c.inBuffer
    ensures c.Valid()
    ensures var run := UnknownRead(old(c.input), c.window, old(c.inBuffer[..]));
      && ok == run.ok
      && c.State() == old(c.State()).(input := run.rest, buf := run.buf)
      && (ok ==> body == run.body)
  {
    ghost var run0 := UnknownRead(c.input, c.window, c.inBuffer[..]);
    body := [];
    var found := false;
    while !found
      invariant c.Valid()
      invariant c.State() == old(c.State()).(input := c.input, buf := c.inBuffer[..])
      invariant !found ==> Prepend(body, UnknownRead(c.input, c.window, c.inBuffer[..])) == run0
      invariant found ==> run0 == Run(true, body, c.input, c.inBuffer[..])
      decreases if found then 0 else 1, Size(c.input)
    {
      ghost var before := c.input;
      ghost var buf := c.inBuffer[..];
      ghost var step := Receive(before, c.window);
      ghost var next := UnknownRead(step.rest, c.window, Overlay(buf, step.got));
      var read := c.ReceiveInto(c.window);
      assert c.input == step.rest && c.inBuffer[..] == Overlay(buf, step.got);
      found := ScanForEndText(c.inBuffer);
      if read < 0 {
        assert Overlay(buf, step.got) == buf;
        return false, body;
      }
      assert c.inBuffer[..read] == step.got;
      if found {
        assert UnknownRead(before, c.window, buf) == Run(true, step.got, c.input, c.inBuffer[..]);
      } else {
        assert UnknownRead(before, c.window, buf) == Prepend(step.got, next);
        PrependTwice(body, step.got, next);
      }
      body := body + c.inBuffer[..read];
    }
    return true, body;
  }
}
