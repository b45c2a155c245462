/**
 * `Chopserver`: the older static dispatcher. Its methods act on a
 * `Client`, read into fresh buffers of their own rather than `inBuffer`,
 * and are each proved to compute the function of module `Legacy` that
 * specifies them.
 */
module Chopserver {
  import opened Java
  import opened Results
  import opened Packet
  import opened Sockets
  import opened Transfer
  import opened Protocol
  import opened Legacy
  import Connections
  import Clients
  import StatusTypes

  /**
   * `accept_new_client`, once the new connection is accepted and registered
   * as `newKey`: store the key in the first empty slot; with none, the key
   * is cancelled and the connection closed (`accepted` false).
   */
  method AcceptNewClient<K>(clientKeys: array<Option<K>>, newKey: K) returns (accepted: bool)
    modifies clientKeys
    ensures clientKeys[..] == Accept(old(clientKeys[..]), newKey)
    ensures accepted <==> FirstFree(old(clientKeys[..])).Some?
  {
    for i := 0 to clientKeys.Length
      invariant clientKeys[..] == old(clientKeys[..])
      invariant forall j :: 0 <= j < i ==> clientKeys[j].Some?
    {
      if clientKeys[i].None? {
        FirstFreeIs(clientKeys[..], i);
        clientKeys[i] := Some(newKey);
        return true;
      }
    }
    return false;
  }

  /** `send`: add OP_WRITE to the interest set and queue the frame at the tail. */
  method Send(client: Clients.Client, data: Bytes)
    modifies client
    ensures client.State() == Connections.Send(old(client.State()), data)
  {
    client.writeInterest := true;
    client.outgoing := client.outgoing + [data];
  }

  /**
   * `write`: poll the head frame; with none, register for reading only.
   * Otherwise write the frame whole, spinning until nothing is left, and
   * register for reading only when the queue is now empty.
   */
  method Write(client: Clients.Client)
    requires client.Valid()
    modifies client
    ensures client.State() == WholeWrite(old(client.State()))
  {
    if client.outgoing == [] {
      client.writeInterest := false;
      return;
    }
    var incoming := client.outgoing[0];
    client.outgoing := client.outgoing[1..];
    var _ := client.WriteSegment(incoming);
    if client.outgoing == [] {
      client.writeInterest := false;
    }
  }

  /** `socket.read(buffer)` into a buffer of the caller's own: the bytes received land at its start. */
  method ReadInto(client: Clients.Client, buffer: array<JByte>) returns (count: int)
    requires buffer != client.inBuffer
    modifies client, buffer
    ensures var r := Receive(old(client.input), buffer.Length);
      && count == r.count
      && buffer[..] == Overlay(old(buffer[..]), r.got)
      && client.State() == old(client.State()).(input := r.rest)
  {
    var r := Receive(client.input, buffer.Length);
    client.input := r.rest;
    forall i | 0 <= i < |r.got| {
      buffer[i] := r.got[i];
    }
    assert buffer[..] == Overlay(old(buffer[..]), r.got);
    count := r.count;
  }

  /**
   * `read`: one read into a fresh four-byte buffer, which throws at the end
   * of the stream and on a short read, then `values()[status]`, which
   * throws for a status outside the table; the header goes no further.
   */
  method Read(client: Clients.Client) returns (r: Connections.Outcome)
    modifies client
    ensures Connections.Step(client.State(), r) == HeaderRead(old(client.State()))
  {
    var headerBuf := new JByte[HEADER_LEN](_ => 0);
    var headerRead := ReadInto(client, headerBuf);
    if headerRead < 0 {
      return Connections.Threw(IOException("Client connection closed"));
    } else if headerRead < HEADER_LEN {
      return Connections.Threw(IOException("Incomplete header received"));
    }
    var stat := StatusTypes.FromOrdinal(headerBuf[PACKET_STATUS]);
    if stat.None? {
      return Connections.Threw(ArrayIndexOutOfBounds);
    }
    return Connections.Ok;
  }

  /** `parse_header`: the switch over the status byte. */
  method ParseHeader(client: Clients.Client, header: Bytes, now: Long) returns (r: Connections.Outcome)
    requires client.Valid() && |header| == HEADER_LEN
    modifies client
    ensures Connections.Step(client.State(), r) == LegacyHandle(old(client.State()), header, now)
  {
    var status := header[PACKET_STATUS];
    r := Connections.Ok;
    if status == NULL {
    } else if status == START_HEADER {
      // `parse_long_header` is empty.
    } else if status == START_TEXT {
      r := ParseText(client, header);
    } else {
      ParseReply(client, header, now);
    }
  }

  /** The cases of `parse_header` that read nothing more: each changes at most the flags and queues at most one reply. */
  method ParseReply(client: Clients.Client, header: Bytes, now: Long)
    requires |header| == HEADER_LEN && header[PACKET_STATUS] !in {NULL, START_HEADER, START_TEXT}
    modifies client
    ensures var d := LegacyDispatch(old(client.State()).flags, header, now);
      d.Done? && client.State() == Connections.Apply(old(client.State()), d.effect)
  {
    var status := header[PACKET_STATUS];
    if status == ENQUIRY {
      ParseEnquiry(client, header, now);
    } else if status == ACKNOWLEDGE {
      var _ := ParseAcknowledge(client, header);
    } else if status == WAKEUP {
      ParseWakeup(client);
    } else if status == NEG_ACKNOWLEDGE {
      var _ := ParseNegAcknowledge(client, header);
    } else if status == IDLE {
      ParseIdle(client);
    } else if status == ESCAPE {
      // `parse_escape` only prints; the case then falls through to the default.
    }
  }

  /**
   * `parse_text`. Both controls 0: the unknown-length loop. Otherwise
   * `bufferCount` window buffers, which a negative count fails to
   * allocate, filled by one scattering read whose result is not looked
   * at. Both ways end with `{0,6,2,0}`.
   */
  method ParseText(client: Clients.Client, header: Bytes) returns (r: Connections.Outcome)
    requires client.Valid() && |header| == HEADER_LEN
    modifies client
    ensures Connections.Step(client.State(), r) == LegacyText(old(client.State()), header)
  {
    var control1, control2 := header[PACKET_CONTROL1], header[PACKET_CONTROL2];
    if control1 == 0 && control2 == 0 {
      var found := DropLoop(client);
      if !found {
        return Connections.Diverges;
      }
    } else {
      var bodyLength := control1 as int * control2 as int;
      var bufferCount := JavaDiv(bodyLength, client.window) + (if JavaRem(bodyLength, client.window) != 0 then 1 else 0);
      if bufferCount < 0 {
        return Connections.Threw(NegativeArraySize);
      }
      SpanIsProduct(bufferCount, client.window);
      // The `bufferCount` buffers of one window each, taken together.
      var buffers := new JByte[bufferCount * client.window](_ => 0);
      var bodyRead := ReadInto(client, buffers);
    }
    Send(client, [NULL, ACKNOWLEDGE, START_TEXT, NULL]);
    r := Connections.Ok;
  }

  /**
   * The unknown-length loop of `parse_text`: read into a fresh window and
   * scan its whole array for END_TEXT, until one read brings it. A read of
   * -1 leaves everything as it was, so the loop would repeat it for ever;
   * the method stops there and reports `found` false.
   */
  method DropLoop(client: Clients.Client) returns (found: bool)
    requires client.Valid()
    modifies client
    ensures var scan := DropRead(old(client.input), client.window);
      found == scan.found && client.State() == old(client.State()).(input := scan.rest)
  {
    ghost var scan := DropRead(client.input, client.window);
    var drop := new JByte[client.window](_ => 0);
    found := false;
    while !found
      invariant client.Valid() && drop.Length == client.window && fresh(drop)
      invariant forall i :: 0 <= i < drop.Length ==> drop[i] == 0
      invariant client.State() == old(client.State()).(input := client.input)
      invariant !found ==> DropRead(client.input, client.window).found == scan.found
      invariant !found ==> DropRead(client.input, client.window).rest == scan.rest
      invariant found ==> scan.found && scan.rest == client.input
      decreases if found then 0 else 1, Size(client.input)
    {
      ghost var before := client.input;
      ghost var step := Receive(before, client.window);
      var read := ReadInto(client, drop);
      if read < 0 {
        return false;
      }
      found := Clients.ScanForEndText(drop);
      EndTextInWindow(step.got, drop[..]);
      drop := new JByte[client.window](_ => 0);
    }
  }

  /** A fresh window holds END_TEXT after a read exactly when the bytes read do. */
  lemma EndTextInWindow(got: Bytes, window: Bytes)
    requires |got| <= |window|
    requires window[..|got|] == got && forall i :: |got| <= i < |window| ==> window[i] == 0
    ensures END_TEXT in window <==> END_TEXT in got
  {
    if END_TEXT in window {
      var i :| 0 <= i < |window| && window[i] == END_TEXT;
      assert i < |got| && got[i] == END_TEXT;
    }
    if END_TEXT in got {
      var i :| 0 <= i < |got| && got[i] == END_TEXT;
      assert window[i] == END_TEXT;
    }
  }

  /** `parse_enquiry`: the switch over control1; a TIME enquiry is acknowledged without reading its payload. */
  method ParseEnquiry(client: Clients.Client, header: Bytes, now: Long)
    requires |header| == HEADER_LEN
    modifies client
    ensures client.State() == Connections.Apply(old(client.State()),
                                                Effect(old(client.State()).flags, LegacyEnquiry(header[PACKET_CONTROL1], now)))
  {
    var control1 := header[PACKET_CONTROL1];
    if control1 == NORMAL {
      Send(client, [NULL, ACKNOWLEDGE, ENQUIRY, NULL]);
    } else if control1 == RETURN {
      Send(client, [NULL, ENQUIRY, NULL, NULL]);
    } else if control1 == TIME {
      Send(client, [NULL, ACKNOWLEDGE, ENQUIRY, NULL]);
    } else if control1 == RETURN_TIME {
      var buffer := [NULL, ENQUIRY, TIME, LONG_BYTES as JByte] + PutLong(now);
      Send(client, buffer);
    }
  }

  /**
   * `parse_acknowledge`: `values()[status]` names the confirmed request
   * (the status byte is ACKNOWLEDGE whenever `parse_header` calls it), then
   * the switch over control1.
   */
  method ParseAcknowledge(client: Clients.Client, header: Bytes) returns (r: Connections.Outcome)
    requires |header| == HEADER_LEN
    modifies client
    ensures StatusTypes.FromOrdinal(header[PACKET_STATUS]).None? ==>
      r == Connections.Threw(ArrayIndexOutOfBounds) && client.State() == old(client.State())
    ensures StatusTypes.FromOrdinal(header[PACKET_STATUS]).Some? ==>
      r == Connections.Ok && client.State() == old(client.State()).(flags := LegacyAcknowledged(old(client.State()).flags, header[PACKET_CONTROL1]))
  {
    if StatusTypes.FromOrdinal(header[PACKET_STATUS]).None? {
      return Connections.Threw(ArrayIndexOutOfBounds);
    }
    var control1 := header[PACKET_CONTROL1];
    if control1 == WAKEUP {
      client.incomingFlag := NULL;
    } else if control1 == IDLE {
      client.incomingFlag := IDLE;
    } else if control1 == ESCAPE {
      client.incomingFlag := CANCEL;
      client.outgoingFlag := CANCEL;
    }
    return Connections.Ok;
  }

  /** `parse_neg_acknowledge`: only `values()[status]`, which may throw. */
  method ParseNegAcknowledge(client: Clients.Client, header: Bytes) returns (r: Connections.Outcome)
    requires |header| == HEADER_LEN
    ensures r == (if StatusTypes.FromOrdinal(header[PACKET_STATUS]).None? then Connections.Threw(ArrayIndexOutOfBounds) else Connections.Ok)
  {
    if StatusTypes.FromOrdinal(header[PACKET_STATUS]).None? {
      return Connections.Threw(ArrayIndexOutOfBounds);
    }
    return Connections.Ok;
  }

  /** `parse_wakeup`. */
  method ParseWakeup(client: Clients.Client)
    modifies client
    ensures client.State() == Connections.Apply(old(client.State()), LegacyWakeup(old(client.State()).flags))
  {
    if client.incomingFlag == IDLE {
      client.incomingFlag := NULL;
      Send(client, [NULL, ACKNOWLEDGE, WAKEUP, NULL]);
    } else {
      Send(client, [NULL, NEG_ACKNOWLEDGE, WAKEUP, NULL]);
    }
  }

  /** `parse_idle`. */
  method ParseIdle(client: Clients.Client)
    modifies client
    ensures client.State() == Connections.Apply(old(client.State()), LegacyIdle(old(client.State()).flags))
  {
    if client.incomingFlag == NULL {
      client.incomingFlag := IDLE;
      Send(client, [NULL, ACKNOWLEDGE, IDLE, NULL]);
    } else {
      Send(client, [NULL, NEG_ACKNOWLEDGE, IDLE, NULL]);
    }
  }
}
