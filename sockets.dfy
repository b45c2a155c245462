/**
 * The peer's side of a socket, as data. What the peer sends arrives as a
 * sequence of chunks; a read into a buffer with `room` free bytes takes at
 * most `room` bytes of the next chunk and leaves the rest of that chunk for
 * the next read, as a stream socket does. Once the stream has ended every
 * read reports -1.
 */
module Sockets {
  import opened Java

  datatype Chunk = Eof | Data(bytes: Bytes)

  /** Every byte the peer sends before the stream ends, in order. */
  function Stream(input: seq<Chunk>): Bytes
  {
    if input == [] then []
    else match input[0]
      case Eof => []
      case Data(b) => b + Stream(input[1..])
  }

  /** A measure that every read taking a chunk or part of one makes smaller. */
  function Size(input: seq<Chunk>): nat
  {
    if input == [] then 0
    else (match input[0] case Eof => 1 case Data(b) => |b| + 1) + Size(input[1..])
  }

  /** The input has ended: the next read reports -1. */
  predicate AtEnd(input: seq<Chunk>)
  {
    input == [] || input[0].Eof?
  }

  /** What `SocketChannel.read` returns (`count`, -1 at the end of the stream), the bytes it stored, and the input left. */
  datatype Received = Received(count: int, got: Bytes, rest: seq<Chunk>)

  /**
   * `socket.read(buffer)` with `room` bytes between the buffer's position and
   * its limit. With no room it returns 0 without looking at the stream.
   */
  function Receive(input: seq<Chunk>, room: nat): (r: Received)
    ensures |r.got| <= room
    ensures r.count == -1 <==> room > 0 && AtEnd(input)
    ensures r.count != -1 ==> r.count == |r.got|
    ensures r.count == -1 ==> r.got == [] && r.rest == input
    ensures room > 0 && r.count != -1 ==> Size(r.rest) < Size(input)
    ensures room == 0 ==> r.rest == input && r.count == 0
  {
    if room == 0 then Received(0, [], input)
    else if AtEnd(input) then Received(-1, [], input)
    else
      var b := input[0].bytes;
      if |b| <= room then Received(|b|, b, input[1..])
      else Received(room, b[..room], [Data(b[room..])] + input[1..])
  }

  /** A read loses and invents nothing: the bytes got followed by what is left are what was there before. */
  lemma ReceiveConserves(input: seq<Chunk>, room: nat)
    ensures var r := Receive(input, room); Stream(input) == r.got + Stream(r.rest)
  {
    var r := Receive(input, room);
    if room > 0 && !AtEnd(input) {
      var b := input[0].bytes;
      if |b| > room {
        assert r.rest[1..] == input[1..];
        assert b == b[..room] + b[room..];
      }
    }
  }

  /** All the bytes are there at once: a read takes as many as fit. */
  lemma ReceiveFromWhole(s: Bytes, more: seq<Chunk>, room: nat)
    requires 0 < room <= |s|
    ensures var r := Receive([Data(s)] + more, room);
      r.count == room && r.got == s[..room] && r.rest == (if room == |s| then more else [Data(s[room..])] + more)
  {
    assert ([Data(s)] + more)[1..] == more;
  }

  /** After the end of the stream a read changes nothing and reports -1 again. */
  lemma EndIsFixpoint(input: seq<Chunk>, room: nat)
    requires room > 0 && AtEnd(input)
    ensures Receive(input, room) == Received(-1, [], input)
    ensures AtEnd(Receive(input, room).rest)
  {
  }
}
