/**
 * The Chop frame header: `[head, status, control1, control2]`, one byte each,
 * followed by an optional body. Status codes are numbered after the ASCII
 * C0 control characters.
 */
module Packet {
  import opened Java
  import opened Results

  /** Four one-byte fields make the header. */
  const HEADER_LEN: nat := BYTE_BYTES + BYTE_BYTES + BYTE_BYTES + BYTE_BYTES

  /** Positions of the header fields. */
  const PACKET_HEAD: nat := 0
  const PACKET_STATUS: nat := 1
  const PACKET_CONTROL1: nat := 2
  const PACKET_CONTROL2: nat := 3

  /** Status codes. */
  const NULL: JByte := 0
  const START_HEADER: JByte := 1
  const START_TEXT: JByte := 2
  const END_TEXT: JByte := 3
  const ENQUIRY: JByte := 5
  const ACKNOWLEDGE: JByte := 6
  const WAKEUP: JByte := 7
  const NEG_ACKNOWLEDGE: JByte := 21
  const IDLE: JByte := 22
  const CANCEL: JByte := 24
  const ESCAPE: JByte := 27

  /** Enquiry sub-codes, carried in control1 of an ENQUIRY frame. */
  const NORMAL: JByte := 0
  const RETURN: JByte := 1
  const TIME: JByte := 2
  const RETURN_TIME: JByte := 3

  /** A packet object; `data == None` stands for a null body array. */
  datatype Packet = Packet(head: JByte, status: JByte, control1: JByte, control2: JByte, data: Option<Bytes>)

  function HeaderOf(p: Packet): Bytes
  {
    [p.head, p.status, p.control1, p.control2]
  }

  /** The header layout: four bytes, fields at positions 0, 1, 2 and 3. */
  lemma HeaderLayout(p: Packet)
    ensures HEADER_LEN == 4 == |HeaderOf(p)|
    ensures HeaderOf(p)[PACKET_HEAD] == p.head && HeaderOf(p)[PACKET_STATUS] == p.status
    ensures HeaderOf(p)[PACKET_CONTROL1] == p.control1 && HeaderOf(p)[PACKET_CONTROL2] == p.control2
  {
  }

  /**
   * `style()`: the header read as one big-endian 32-bit int. Splitting the
   * value back into four bytes gives the four header fields.
   */
  function Style(p: Packet): (r: int)
    ensures INT_MIN <= r <= INT_MAX
    ensures PutInt(r) == [p.head, p.status, p.control1, p.control2]
  {
    IntRoundTrip(HeaderOf(p));
    GetInt(HeaderOf(p))
  }

  /** A `ByteBuffer` as a value: its backing array, position and limit. */
  datatype BufferState = BufferState(content: Bytes, position: nat, limit: nat)

  /**
   * `out()`: allocates a buffer of `HEADER_LEN + data.length` bytes and puts
   * the four header fields and then the body into it, one `put` at a time.
   * The buffer is returned as filled, not flipped. A null body fails at
   * `data.length` before anything is put, so the later null check never
   * sees null.
   */
  method Out(p: Packet) returns (r: Result<BufferState, Exception>)
    ensures p.data.None? <==> r == Failure(NullPointer)
    ensures r.Success? ==>
      var b := r.value;
      && |b.content| == HEADER_LEN + |p.data.value|
      && b.content[PACKET_HEAD] == p.head
      && b.content[PACKET_STATUS] == p.status
      && b.content[PACKET_CONTROL1] == p.control1
      && b.content[PACKET_CONTROL2] == p.control2
      && b.content[HEADER_LEN..] == p.data.value
      && b.position == b.limit == |b.content|
  {
    if p.data.None? {
      return Failure(NullPointer);
    }
    var capacity := HEADER_LEN + |p.data.value|;
    var buffer := new JByte[capacity];
    var position := 0;
    buffer[position] := p.head;
    position := position + 1;
    buffer[position] := p.status;
    position := position + 1;
    buffer[position] := p.control1;
    position := position + 1;
    buffer[position] := p.control2;
    position := position + 1;
    if p.data.Some? {
      var data := p.data.value;
      for k := 0 to |data|
        invariant position == HEADER_LEN + k
        invariant buffer[..HEADER_LEN] == HeaderOf(p)
        invariant buffer[HEADER_LEN..position] == data[..k]
      {
        buffer[position] := data[k];
        position := position + 1;
      }
    }
    r := Success(BufferState(buffer[..], position, capacity));
  }
}
