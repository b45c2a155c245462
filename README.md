# Chop protocol engine, modelled in Dafny

Chop is a small framing protocol over TCP. Every frame starts with a four-byte header
`[head, status, control1, control2]`, and the status codes are numbered after the ASCII
(ANSI X3.4) C0 control characters. A START_TEXT frame carries a body whose length is
announced as a product `control1 * control2`. A body of unknown length is announced as
`(0, 0)` and ends at an END_TEXT byte. ENQUIRY frames are pings and clock requests.
IDLE and WAKEUP are a flow-control handshake, confirmed by ACKNOWLEDGE or refused by
NEG_ACKNOWLEDGE. ESCAPE closes the connection.

The model covers the core of the Java implementation, file by file:

- `packet.dfy` (module `Packet`): the header layout, `Packet.style()` and `Packet.out()`.
- `status_type.dfy` (module `StatusTypes`) and `enquiry_type.dfy` (module `EnquiryTypes`):
  - the two enumerations and their ordinals;
  - the header builders `bytes(...)`;
  - the START_TEXT encoder, which searches for a byte-sized factor pair.
- `protocol.dfy` (module `Protocol`): what each header does to the two flow-control flags,
  and which replies it queues. Two dispatchers are specified:
  - the enum dispatcher, reached through `Client.read` and each constant's `parse`;
  - the legacy static dispatcher `Chopserver.parse_header`.
- `transfer.dfy` (module `Transfer`): reference definitions of the windowed transfers.
  - The known-length body read is `ceil(len / W)` segments of `min(W, remaining)` bytes.
  - The unknown-length read scans the whole window array for END_TEXT.
  - Outgoing frames are cut into window-sized segments.
- `connections.dfy` (module `Connections`): one connection's state as a value (`Conn`), and
  the effect of `send`, `write`, `forceSend`, `read` and the body-reading handlers.
- `client.dfy` (module `Clients`): the `Client` class, with the fields its methods update in
  place, and the `parse` handlers that act on it. Each method is proved to compute the
  corresponding function of `Connections` or `Protocol`.
- `legacy.dfy` (module `Legacy`) and `chopserver.dfy` (module `Chopserver`): the older static
  dispatcher.
  - `Legacy` holds its specification and the lemmas comparing it with the enum dispatcher.
  - `Chopserver` holds the methods, over a `Client` and a slot array, proved against that
    specification.
- `utf8.dfy` (module `Utf8`): how many `char`s `new String(bytes)` decodes from a byte array, with UTF-8 as the default charset. `START_TEXT.parse` logs each section through that decoding.
- `java.dfy` (module `Java`): Java's signed bytes, narrowing casts, truncating `/` and `%`,
  and big-endian `getInt`/`putInt`/`getLong`/`putLong`.
- `sockets.dfy` (module `Sockets`): the socket as what the peer sends, a sequence of chunks.
- `results.dfy` (module `Results`): `Option` and `Result`.

Conventions:

- Bytes are Java bytes (-128..127). A status byte of 128..255 on the wire is therefore
  negative, and control products can be negative, as in the source.
- Exceptions are values (`Java.Exception`), and a handler returns an `Outcome`: `Ok`,
  `Threw(e)` or `Diverges`.
- The clock is a parameter `now`. What the socket accepts per `write` call is a parameter
  `writeCap`.

## Model

Paths are relative to the repository root. `src/main/java/ca/chopserver/` is written out in full.

| member | source | states |
|---|---|---|
| Packet.HeaderLayout | src/main/java/ca/chopserver/Packet.java:12-17 | The header is four bytes, with head, status, control1 and control2 at indices 0, 1, 2 and 3. |
| Packet.Style | src/main/java/ca/chopserver/Packet.java:42-44 | `style()` is a signed 32-bit value; writing it back big-endian gives exactly head, status, control1 and control2. |
| Packet.Out | src/main/java/ca/chopserver/Packet.java:46-54 | A null body fails with NullPointerException and nothing else does. Otherwise the buffer has `4 + data.length` bytes: the four header fields in order, then `data`. Its position and limit are both at the end, so it is not flipped. |
| Java.ToByte | src/main/java/ca/chopserver/StatusType.java:275-277 | The `(byte)` cast keeps the value modulo 256 and is the identity on -128..127. |
| Java.Unsigned | src/main/java/ca/chopserver/Packet.java:43 | A byte as it travels on the wire: a value below 256 that casts back to the same byte. |
| Java.JavaDivRem | src/main/java/ca/chopserver/StatusType.java:62 | Java's `/` and `%` satisfy `q*b + r == a`, and the remainder takes the sign of the dividend. |
| Java.IntRoundTrip | src/main/java/ca/chopserver/Packet.java:43 | `getInt` on four bytes gives a 32-bit value from which `putInt` rebuilds the same bytes. |
| Java.LongRoundTrip | src/main/java/ca/chopserver/EnquiryType.java:69-70 | A clock value written with `putLong` is eight bytes, and `getLong` reads back the same value. |
| Utf8.Matched | src/main/java/ca/chopserver/StatusType.java:94 | The bytes taken after a lead byte stay short of its form's length and of the input. Some are taken exactly when the lead opens a form that the next byte continues. |
| Utf8.DecodedLength | src/main/java/ca/chopserver/StatusType.java:94 | `new String(bytes)` never has more `char`s than the array has bytes. |
| Utf8.DecodedLengthOneForOne | src/main/java/ca/chopserver/StatusType.java:94 | The string has one `char` per byte exactly when no byte opens a UTF-8 form that the next byte continues. Otherwise it is shorter than the array. |
| Utf8.SinglesDecodeOneForOne | src/main/java/ca/chopserver/StatusType.java:94 | Bytes that open no multi-byte form, such as the ASCII header bytes, each decode to one `char` and never join the bytes after them. |
| Utf8.AsciiOneForOne | src/main/java/ca/chopserver/StatusType.java:94 | An ASCII array decodes to one `char` per byte. |
| Utf8.EAcuteFrameShortens | src/main/java/ca/chopserver/StatusType.java:94 | The frame `{0,2,1,2}` followed by C3 A9 ("é") has six bytes but decodes to five `char`s. |
| Utf8.WideAndSurrogateForms | src/main/java/ca/chopserver/StatusType.java:94 | A four-byte form decodes to a surrogate pair, and an encoded surrogate decodes to one U+FFFD. |
| Utf8.IllFormedBytesOneEach | src/main/java/ca/chopserver/StatusType.java:94 | Lone continuation bytes and an overlong E0 80 80 decode to one U+FFFD per byte. |
| StatusTypes.Ordinal | src/main/java/ca/chopserver/StatusType.java:13-265 | Every status constant has an ordinal in 0..31. |
| StatusTypes.FromOrdinal | src/main/java/ca/chopserver/StatusType.java:267-269 | `fromOrdinal(i)` is defined exactly for 0 <= i < 32, where it inverts `ordinal()`. Anything else is ArrayIndexOutOfBounds, modelled as None. |
| StatusTypes.ValueAt | src/main/java/ca/chopserver/StatusType.java:267-269 | `values()[i]` is the constant whose ordinal is i. |
| StatusTypes.FromOrdinalOrdinal | src/main/java/ca/chopserver/StatusType.java:267-269 | Every constant comes back from its own ordinal. |
| StatusTypes.OrdinalsAreStatusCodes | src/main/java/ca/chopserver/StatusType.java:13-265 | Each named constant's ordinal equals the Packet code of the same name: 0, 1, 2, 3, 5, 6, 7, 21, 22, 24 and 27. |
| StatusTypes.StatusBytes2 | src/main/java/ca/chopserver/StatusType.java:283-285 | `bytes(c1, c2)` is a four-byte header with head 0. Its status decodes back to the constant, and it carries both controls. |
| StatusTypes.StatusBytes1 | src/main/java/ca/chopserver/StatusType.java:279-281 | `bytes(c1)` equals `bytes(c1, 0)`. |
| StatusTypes.StatusBytes | src/main/java/ca/chopserver/StatusType.java:275-277 | `bytes()` equals `bytes(0, 0)`. |
| StatusTypes.ReplyHeaders | src/main/java/ca/chopserver/StatusType.java:279-281 | `ACKNOWLEDGE.bytes(c)` is `{0,6,c,0}` and `NEG_ACKNOWLEDGE.bytes(c)` is `{0,21,c,0}`. |
| StatusTypes.ControlSearch | src/main/java/ca/chopserver/StatusType.java:110-118 | The factor search yields non-negative controls: either a pair found or (0, 0). |
| StatusTypes.StartTextControls | src/main/java/ca/chopserver/StatusType.java:109-125 | The controls are non-negative. They are (0, 0) only for a body over 127 bytes, and otherwise their product is the body length. |
| StatusTypes.ControlSearchFindsFirst | src/main/java/ca/chopserver/StatusType.java:110-118 | The search from i returns the first candidate at or after i and its quotient, whose product is n. Returning (0, 0) means no candidate exists from i on. A candidate is i with i*i < n that divides n, with both factors at most 127. |
| StatusTypes.ControlSearchFound | src/main/java/ca/chopserver/StatusType.java:110-118 | A pair the search returns is a candidate and its quotient, with product n. |
| StatusTypes.ControlSearchFirst | src/main/java/ca/chopserver/StatusType.java:110-118 | No candidate lies between the start of the search and the pair it returns. |
| StatusTypes.ControlSearchNone | src/main/java/ca/chopserver/StatusType.java:110-118 | A search that finds nothing leaves no candidate from its start on. |
| StatusTypes.SearchSkips | src/main/java/ca/chopserver/StatusType.java:111-112 | An i below the square root that fails the tests is no candidate, and the search moves on to i + 1. |
| StatusTypes.NoCandidateFrom | src/main/java/ca/chopserver/StatusType.java:110 | Once i*i >= n, the loop ends with (0, 0), and no larger i is a candidate. |
| StatusTypes.FoundCandidate | src/main/java/ca/chopserver/StatusType.java:111-115 | An i that passes the loop's tests is a candidate, and the controls stored are (i, n / i), with product n. |
| StatusTypes.StartTextControlsLong | src/main/java/ca/chopserver/StatusType.java:109-118 | For a body over 127 bytes there are two cases. If some candidate exists, the controls are the smallest one and its quotient: both in 1..127, with product equal to the length. Otherwise the controls are (0, 0), and that happens exactly when no candidate exists. |
| StatusTypes.StartTextControlsTooLong | src/main/java/ca/chopserver/StatusType.java:109-118 | A body longer than 127 * 127 always gets (0, 0). |
| StatusTypes.StartTextBytes | src/main/java/ca/chopserver/StatusType.java:101-131 | `START_TEXT.bytes(d)` never throws. It returns `4 + |d|` bytes: head 0, status 2, the controls (1, |d|) for at most 127 bytes and otherwise the factor-search result, then d. |
| StatusTypes.SearchControls | src/main/java/ca/chopserver/StatusType.java:110-118 | The search loop, as a loop, computes exactly the reference search from 1. |
| StatusTypes.StartTextPrimeFallsBack | src/main/java/ca/chopserver/StatusType.java:119-121 | A 131-byte body gets controls (0, 0), which announce unknown length, and no exception. |
| StatusTypes.StartTextSquareFallsBack | src/main/java/ca/chopserver/StatusType.java:110 | 169 = 13 * 13, but the strict `i < sqrt(n)` never tries 13, so the controls are (0, 0). |
| StatusTypes.StartTextSixHundred | src/main/java/ca/chopserver/StatusType.java:109-118 | A 600-byte body is announced as 5 * 120. |
| StatusTypes.FactorPairFromSound | src/main/java/ca/chopserver/StatusType.java:109-121 | The corrected search only returns byte-sized factor pairs of n. |
| StatusTypes.FactorPairFromComplete | src/main/java/ca/chopserver/StatusType.java:109-121 | If a byte-sized factor pair exists, the corrected search finds one. |
| StatusTypes.CheckedStartTextBytes | src/main/java/ca/chopserver/StatusType.java:101-131 | The corrected encoder's frame is `{0,2,…}` followed by the body. It fails only for a body over 127 bytes, and then names the length. |
| StatusTypes.CheckedStartTextBytesCorrect | src/main/java/ca/chopserver/StatusType.java:101-131 | The corrected encoder fails exactly when the length is over 127 and has no byte-sized factor pair. Otherwise it returns the same layout, with control1 >= 1 and control1 * control2 equal to the body length. |
| StatusTypes.CheckedStartTextBytesOnFallbacks | src/main/java/ca/chopserver/StatusType.java:119-121 | Where the as-written encoder falls back to (0, 0), the corrected one refuses 131 bytes and encodes 169 bytes as 13 * 13. |
| EnquiryTypes.Ordinal | src/main/java/ca/chopserver/EnquiryType.java:10-74 | Every enquiry type has an ordinal in 0..3. |
| EnquiryTypes.FromOrdinal | src/main/java/ca/chopserver/EnquiryType.java:76-78 | `fromOrdinal(i)` is defined exactly on 0..3, where it inverts `ordinal()`. |
| EnquiryTypes.OrdinalsAreEnquiryCodes | src/main/java/ca/chopserver/EnquiryType.java:10-74 | NORMAL, RETURN, TIME and RETURN_TIME have ordinals 0, 1, 2 and 3, and each comes back from its ordinal. |
| EnquiryTypes.EnquiryBytes1 | src/main/java/ca/chopserver/EnquiryType.java:88-90 | `bytes(c2)` is a four-byte ENQUIRY header whose control1 decodes back to the type and whose control2 is c2. |
| EnquiryTypes.EnquiryBytes | src/main/java/ca/chopserver/EnquiryType.java:84-86 | `bytes()` equals `bytes(0)`. |
| Sockets.Receive | src/main/java/ca/chopserver/Client.java:190 | A read stores at most `room` bytes and reports their number. It reports -1, storing nothing, exactly when there is room and the stream has ended. With room and before the end of the stream it always consumes input; with no room it returns 0. |
| Sockets.ReceiveConserves | src/main/java/ca/chopserver/Client.java:190 | A read loses and invents no byte: the bytes got, followed by the remaining stream, are the stream before. |
| Sockets.ReceiveFromWhole | src/main/java/ca/chopserver/Client.java:190 | With a chunk of at least `room` bytes waiting, a read takes exactly its first `room` bytes. |
| Sockets.EndIsFixpoint | src/main/java/ca/chopserver/Chopserver.java:192-193 | After the end of the stream, a read reports -1 and changes nothing. |
| Transfer.BufferCountIsCeiling | src/main/java/ca/chopserver/StatusType.java:62 | For a non-negative length, `bufferCount` is the ceiling of len / W. |
| Transfer.SegmentsLeftCount | src/main/java/ca/chopserver/Client.java:244 | The number of window-sized segments a length needs is exactly `bufferCount`. |
| Transfer.KnownRead | src/main/java/ca/chopserver/StatusType.java:70-90 | Reference definition of the known-length loop. Its contract says only that the window array keeps its size; the lemmas below state what it delivers. |
| Transfer.KnownReadStep | src/main/java/ca/chopserver/StatusType.java:71-90 | One pass of the loop: a short read ends the run as it stands, and a whole segment extends the body collected. |
| Transfer.KnownReadDelivers | src/main/java/ca/chopserver/StatusType.java:59-90 | A completed known-length read delivers exactly `remaining` bytes, and they are the next bytes of the stream. |
| Transfer.KnownReadShortFails | src/main/java/ca/chopserver/StatusType.java:78-81 | If the stream holds fewer bytes than announced, the read always fails. |
| Transfer.KnownReadWhole | src/main/java/ca/chopserver/StatusType.java:71-90 | With the body waiting whole in one chunk, the read succeeds with its first `remaining` bytes and leaves the rest of the chunk. |
| Transfer.UnknownRead | src/main/java/ca/chopserver/StatusType.java:36-52 | Reference definition of the unknown-length loop. Its contract says only that the window array keeps its size; the lemmas below state what it delivers. |
| Transfer.UnknownReadDelivers | src/main/java/ca/chopserver/StatusType.java:36-52 | A completed unknown-length read stops with END_TEXT in the window array and delivers the next bytes of the stream. At the end of the stream it fails. |
| Transfer.UnknownReadMarkerSegment | src/main/java/ca/chopserver/StatusType.java:39-52 | The segment holding END_TEXT is delivered whole, bytes after the marker included, and what follows it stays unread. |
| Transfer.UnknownReadStaleMarker | src/main/java/ca/chopserver/StatusType.java:40-48 | A marker left in the array by an earlier frame also ends the read, after a short segment without a marker. |
| Transfer.SegmentsConcat | src/main/java/ca/chopserver/Client.java:245-260 | The segments of a frame, concatenated in order, are the frame. |
| Transfer.SegmentsCount | src/main/java/ca/chopserver/Client.java:244 | A frame leaves in exactly `bufferCount = ceil(len / W)` segments. |
| Transfer.SegmentAt | src/main/java/ca/chopserver/Client.java:247-249 | Segment k is `frame[kW .. min((k+1)W, len)]`. It is never empty and never longer than the window. |
| Transfer.SixHundredBytesInThreeSegments | src/main/java/ca/chopserver/Client.java:242-260 | With a 255-byte window, a 600-byte frame leaves as 255, 255 and 90 bytes. |
| Transfer.SegmentedBodyRoundTrip | src/main/java/ca/chopserver/Client.java:242-260 | A body cut into segments and delivered one segment per read is reassembled byte for byte by the known-length read, which leaves exactly what came after it. |
| Protocol.LegacyDispatch | src/main/java/ca/chopserver/Chopserver.java:145-176 | `parse_header` reads a body exactly for START_TEXT; for every other status it only changes flags and queues replies. |
| Protocol.IdleRequestAnswer | src/main/java/ca/chopserver/StatusType.java:226-239 | IDLE is granted exactly from incoming flag 0: the flag becomes 22 and `{0,6,22,0}` is queued. Otherwise nothing changes and `{0,21,22,0}` is queued. |
| Protocol.WakeupRequestAnswer | src/main/java/ca/chopserver/StatusType.java:177-190 | WAKEUP is granted exactly from incoming flag 22: the flag becomes 0 and `{0,6,7,0}` is queued. Otherwise nothing changes and `{0,21,7,0}` is queued. |
| Protocol.RequesterFollowsResponder | src/main/java/ca/chopserver/StatusType.java:150-170 | The responder answers an IDLE or WAKEUP request with one reply. On receiving it, the requester sets its incoming flag to the responder's new value if the request was granted, and changes nothing if it was refused. It queues nothing either way. |
| Protocol.SleepThenWake | src/main/java/ca/chopserver/StatusType.java:177-239 | From the normal state, sleep then wake is granted twice and restores the flags. A second sleep request while asleep is refused. |
| Protocol.WakeupRefusedWhenAwake | src/main/java/ca/chopserver/StatusType.java:181-188 | A fresh connection refuses WAKEUP with `{0,21,7,0}`. |
| Protocol.FlagsStayValid | src/main/java/ca/chopserver/StatusType.java:150-239 | Neither dispatcher ever stores a flag value other than 0, 22 or 24. |
| Protocol.CancelIsOverwritten | src/main/java/ca/chopserver/StatusType.java:155-169 | After both flags are CANCEL, an acknowledged WAKEUP or IDLE still overwrites the incoming flag, in both dispatchers. |
| Protocol.AcknowledgementSetsFlags | src/main/java/ca/chopserver/StatusType.java:150-170 | In both dispatchers, an ACKNOWLEDGE of WAKEUP sets the incoming flag to 0 and one of IDLE sets it to 22. One of ESCAPE sets both flags to 24. None of them queues a reply. |
| Protocol.ClientReplies | src/main/java/ca/chopserver/Client.java:203-214 | Every header the enum dispatcher handles itself is answered with at most one frame. It gets none exactly when it is an ACKNOWLEDGE or NEG_ACKNOWLEDGE naming a status in range. Only ACKNOWLEDGE, WAKEUP and IDLE change a flag. |
| Protocol.UnsupportedStatusRefused | src/main/java/ca/chopserver/Client.java:203-214 | A status outside 0..31, or one with no `parse` of its own, is answered with exactly `{0,21,status,0}`, and the flags are unchanged. |
| Protocol.BadControlRefused | src/main/java/ca/chopserver/StatusType.java:141 | An ENQUIRY control1 outside 0..3, or an ACKNOWLEDGE or NEG_ACKNOWLEDGE control1 outside 0..31, is refused with `{0,21,status,0}` before any change. |
| Protocol.TimeHeaderDispatch | src/main/java/ca/chopserver/StatusType.java:138-143 | A TIME enquiry header sends the enum dispatcher on to read its payload. |
| Protocol.TimeFrameLayout | src/main/java/ca/chopserver/EnquiryType.java:62-74 | The RETURN_TIME reply is 12 bytes and starts `{0,5,2,8}`. |
| Protocol.EnquiryAnswers | src/main/java/ca/chopserver/EnquiryType.java:10-74 | NORMAL is acknowledged with `{0,6,5,0}` and RETURN is answered with `{0,5,0,0}`. RETURN_TIME is answered with a TIME header of 8 bytes, whose payload reads back as the clock value. Each queues exactly one frame and changes no flag. |
| Protocol.LegacyEnquiryAnswers | src/main/java/ca/chopserver/Chopserver.java:229-251 | `parse_enquiry` acknowledges NORMAL and TIME with `{0,6,5,0}`, reading no payload for TIME. It answers RETURN with `{0,5,0,0}` and RETURN_TIME with the clock frame. It queues nothing exactly for a code outside 0..3, and changes no flag. |
| Protocol.LegacyIgnores | src/main/java/ca/chopserver/Chopserver.java:145-176 | NULL, START_HEADER, NEG_ACKNOWLEDGE, ESCAPE (which falls through to the default) and every unlisted status change nothing and queue nothing. |
| Protocol.IdleRequest | src/main/java/ca/chopserver/StatusType.java:226-239 | IDLE is answered with exactly one reply. It is `{0,6,22,0}` exactly when the incoming flag is 0; otherwise it is `{0,21,22,0}` and the flags are unchanged. The outgoing flag is never touched, and valid flags stay valid. |
| Protocol.WakeupRequest | src/main/java/ca/chopserver/StatusType.java:177-190 | WAKEUP is answered with exactly one reply. It is `{0,6,7,0}` exactly when the incoming flag is 22; otherwise it is `{0,21,7,0}` and the flags are unchanged. Valid flags stay valid. |
| Protocol.Acknowledged | src/main/java/ca/chopserver/StatusType.java:150-170 | Confirming WAKEUP sets the incoming flag to 0, and confirming IDLE sets it to 22. Confirming ESCAPE sets both flags to 24, and confirming anything else changes no flag. The outgoing flag changes only in the ESCAPE case, and valid flags stay valid. |
| Protocol.ClientDispatch | src/main/java/ca/chopserver/Client.java:203-214 | The enum dispatch reads a body exactly for START_TEXT and reads a payload exactly for a TIME enquiry. It shuts down exactly for ESCAPE, and every other header is answered with at most one frame. |
| Protocol.LegacyIdle | src/main/java/ca/chopserver/Chopserver.java:287-297 | `parse_idle` has exactly the effect of `IDLE.parse`. |
| Protocol.LegacyWakeup | src/main/java/ca/chopserver/Chopserver.java:271-281 | `parse_wakeup` has exactly the effect of `WAKEUP.parse`. |
| Protocol.LegacyAcknowledged | src/main/java/ca/chopserver/Chopserver.java:253-269 | For a control1 in 0..31, the raw byte switch sets the flags exactly as the enum switch over the confirmed constant does. Valid flags stay valid. |
| Protocol.LegacyEnquiry | src/main/java/ca/chopserver/Chopserver.java:229-251 | `parse_enquiry` queues at most one reply, and none exactly when control1 is outside 0..3. |
| Protocol.DispatchersAgree | src/main/java/ca/chopserver/Chopserver.java:253-297 | The two dispatchers agree on the IDLE/WAKEUP handshake, on ACKNOWLEDGE and NEG_ACKNOWLEDGE of an in-range status, on the NORMAL, RETURN and RETURN_TIME enquiries, and on the hand-over of START_TEXT. |
| Protocol.DispatchersDiffer | src/main/java/ca/chopserver/Chopserver.java:145-176 | They differ on several inputs. Status 200, NULL and ACKNOWLEDGE naming status 40 are refused by one and ignored by the other. TIME reads a payload in one only. ESCAPE shuts down in one and only prints in the other. |
| Connections.Zeros | src/main/java/ca/chopserver/Client.java:134-135 | `ByteBuffer.allocate(n)` gives n zero bytes. |
| Connections.New | src/main/java/ca/chopserver/Client.java:120-139 | A new connection is valid for a positive window and write cap. It has flags 0, empty queues and wire, a zeroed buffer, no write interest and is not closed. |
| Connections.Send | src/main/java/ca/chopserver/Client.java:282-291 | `send` puts the frame at the tail behind every queued frame and sets OP_WRITE. Flags, deliveries, input, wire and sizes are unchanged. |
| Connections.Deliver | src/main/java/ca/chopserver/StatusType.java:95-98 | The section is appended to `incoming` and `{0,6,2,0}` to the outgoing queue, with OP_WRITE set. Flags, input, wire and buffer are unchanged. |
| Connections.Write | src/main/java/ca/chopserver/Client.java:219-268 | Specification of `write`. Its contract keeps the window, the write cap and the buffer size; its behaviour is stated by WriteTakesHead, WriteInterest, FramesLeaveInOrder and WriteLosesLongFrame. |
| Connections.SegmentedWrite | src/main/java/ca/chopserver/Client.java:241-266 | `write` without the whole-frame `put`. Its contract keeps the sizes; SegmentedWriteSendsWholeFrame states what it sends. |
| Connections.ForceSend | src/main/java/ca/chopserver/Client.java:293-296 | Specification of `forceSend`. Its contract keeps the sizes; ForceSendWritesHead states what it writes. |
| Connections.StartText | src/main/java/ca/chopserver/StatusType.java:17-99 | Specification of `START_TEXT.parse`, including the log line's decoding. Its contract keeps the sizes; KnownLengthText, UnknownLengthText and SignedControls state its outcomes. |
| Connections.Received | src/main/java/ca/chopserver/StatusType.java:93-98 | Once a section is read, it is delivered and `{0,6,2,0}` is queued exactly when it decodes one `char` per byte. Otherwise `substring(4, length)` throws StringIndexOutOfBounds, and nothing is delivered or queued. |
| Connections.TimeEnquiry | src/main/java/ca/chopserver/EnquiryType.java:30-60 | Specification of `TIME.parse`. Its contract keeps the sizes; TimeEnquiryAnswer states its outcomes. |
| Connections.Escape | src/main/java/ca/chopserver/StatusType.java:249-257 | Specification of `ESCAPE.parse`. Its contract keeps the sizes; EscapeAcknowledgesThenCloses states what it does. |
| Connections.Read | src/main/java/ca/chopserver/Client.java:183-217 | Specification of `read`. Its contract keeps the sizes; IncompleteHeaderIgnored, ReadRefusesUnsupported and ReadWholeHeader state its outcomes. |
| Connections.Handle | src/main/java/ca/chopserver/Client.java:203-214 | Dispatch of a whole header. Its contract keeps the sizes; HandleEnquiry and the Protocol lemmas state what each status does. |
| Connections.HandleEnquiry | src/main/java/ca/chopserver/StatusType.java:138-143 | An unknown enquiry type is refused with a NEG_ACKNOWLEDGE of the status. NORMAL and RETURN are answered at once, TIME reads its payload, and RETURN_TIME answers with the clock. |
| Connections.WriteTakesHead | src/main/java/ca/chopserver/Client.java:219-260 | `write` removes exactly the queue head. Either the head's segments reach the wire and the call succeeds, or it throws and nothing is written. Flags, delivered arrays and input are untouched. |
| Connections.WriteInterest | src/main/java/ca/chopserver/Client.java:224-266 | OP_WRITE is dropped exactly when the queue was empty on entry, or when the write succeeded and emptied it. |
| Connections.FramesLeaveInOrder | src/main/java/ca/chopserver/Client.java:219-221 | Two frames sent onto an empty queue leave in FIFO order on the next two writes. Interest is kept after the first write and dropped after the second. |
| Connections.FittingFrameIsOneSegment | src/main/java/ca/chopserver/Client.java:244-260 | A frame that fits the window leaves as one segment. |
| Connections.WriteLosesLongFrame | src/main/java/ca/chopserver/Client.java:237-238 | A head frame longer than the window is removed from the queue, and `write` throws BufferOverflowException without writing anything. |
| Connections.WriteLosesFrameOneLongerThanWindow | src/main/java/ca/chopserver/Client.java:237-238 | With a 255-byte window, a 256-byte frame is lost. |
| Connections.SegmentedWriteSendsWholeFrame | src/main/java/ca/chopserver/Client.java:242-260 | Without the overflow, every frame leaves as `bufferCount` non-empty segments of at most W bytes, which together are the frame. |
| Connections.ForceSendWritesHead | src/main/java/ca/chopserver/Client.java:293-296 | `forceSend` writes the queue head. That is the new frame only when the queue was empty; otherwise the new frame stays queued behind the rest. |
| Connections.IncompleteHeaderIgnored | src/main/java/ca/chopserver/Client.java:186-197 | A header read returning anything but 4 bytes, -1 included, dispatches nothing, queues nothing and throws nothing. |
| Connections.ReadRefusesUnsupported | src/main/java/ca/chopserver/Client.java:203-214 | A whole header with an unsupported status appends exactly `{0,21,status,0}`, sets OP_WRITE and keeps the flags. |
| Connections.KnownLengthText | src/main/java/ca/chopserver/StatusType.java:59-98 | A known-length section ends in one of three ways. On success it delivers the header followed by exactly `control1 * control2` bytes, the next ones of the stream, and queues `{0,6,2,0}`. It throws IOException exactly when a segment comes short, which always happens when the stream holds fewer bytes than announced. It throws StringIndexOutOfBounds exactly when the whole section arrived but some byte of it opens a UTF-8 form that the next byte continues. After either exception, nothing is delivered or queued. |
| Connections.KnownLengthTextInOneChunk | src/main/java/ca/chopserver/StatusType.java:59-98 | A body arriving in one chunk is read exactly, and the rest of the chunk stays unread. The section is then delivered and acknowledged exactly when it decodes one `char` per byte, and otherwise the log line throws. |
| Connections.SignedControls | src/main/java/ca/chopserver/StatusType.java:61-94 | A product below -4 fails the allocation, and one in -4..-1 fails the header copy. Two negative controls announce a positive length: `{0,2,-2,-3}` succeeds exactly when six bytes arrive and they decode one `char` per byte. FE and FD open no UTF-8 form, so only the body decides. |
| Connections.UnknownLengthText | src/main/java/ca/chopserver/StatusType.java:26-98 | A completed unknown-length section ends with END_TEXT in the window array. It delivers the header followed by the next bytes of the stream, and it succeeds exactly when the read completes and the section decodes one `char` per byte. At the end of the stream it throws IndexOutOfBounds and changes nothing. |
| Connections.TimeEnquiryAnswer | src/main/java/ca/chopserver/EnquiryType.java:30-60 | TIME succeeds exactly when 8 <= control2 <= W and that many bytes arrive in one read. It then queues `{0,6,5,0}`; otherwise it queues nothing. It never changes a flag. |
| Connections.ReturnTimeReplyIsAnswered | src/main/java/ca/chopserver/EnquiryType.java:62-74 | A peer with a window of at least 8 that receives the RETURN_TIME reply in one chunk answers it with `{0,6,5,0}` and consumes exactly that frame. |
| Connections.ReadWholeHeader | src/main/java/ca/chopserver/Client.java:186-207 | A whole header waiting at the front of the input is taken in one read and dispatched. |
| Connections.TimeEnquiryWhole | src/main/java/ca/chopserver/EnquiryType.java:30-60 | An eight-byte payload waiting in one chunk is read and acknowledged. |
| Connections.EscapeAcknowledgesThenCloses | src/main/java/ca/chopserver/StatusType.java:249-257 | With nothing queued, ESCAPE writes `{0,6,27,0}` at once and closes. With frames queued, the oldest goes out instead and the acknowledgement stays queued. |
| Clients.Client.constructor | src/main/java/ca/chopserver/Client.java:120-139 | A server-side connection starts with both flags 0, empty queues, a zeroed window buffer and interest in reading only. |
| Clients.Client.Send | src/main/java/ca/chopserver/Client.java:282-291 | `send` appends the frame to the tail of `outgoing` and sets OP_WRITE, and changes nothing else. |
| Clients.Client.FlushSegments | src/main/java/ca/chopserver/Client.java:242-260 | The segment loop appends exactly the frame's window-sized segments to the wire. |
| Clients.Client.FlushSegment | src/main/java/ca/chopserver/Client.java:246-259 | One pass of the segment loop sends `min(W, remaining)` bytes and keeps the loop on course. |
| Clients.Client.WriteSegment | src/main/java/ca/chopserver/Client.java:253-256 | The spin loop writes the whole segment, whatever each `write` call accepts. |
| Clients.Client.Write | src/main/java/ca/chopserver/Client.java:219-268 | The method computes exactly `Connections.Write`. |
| Clients.Client.WriteSegmented | src/main/java/ca/chopserver/Client.java:241-266 | The method computes exactly `Connections.SegmentedWrite`. |
| Clients.Client.ForceSend | src/main/java/ca/chopserver/Client.java:293-296 | The method computes exactly `Connections.ForceSend`. |
| Clients.Client.Shutdown | src/main/java/ca/chopserver/Client.java:298-301 | `shutdown` closes the connection and changes nothing else. |
| Clients.Client.ReceiveInto | src/main/java/ca/chopserver/Client.java:186-190 | The bytes read land at the start of `inBuffer`, and the rest of the array is unchanged. |
| Clients.Client.ReceiveSegment | src/main/java/ca/chopserver/StatusType.java:73-89 | One pass of the known-length loop: a whole segment extends the body, and a short one ends the read as the reference read ends. |
| Clients.Client.Read | src/main/java/ca/chopserver/Client.java:183-217 | The method computes exactly `Connections.Read`. |
| Clients.Client.Catch | src/main/java/ca/chopserver/Client.java:208-214 | ArrayIndexOutOfBounds and UnsupportedOperation are answered with `{0,21,status,0}` and end normally; every other outcome passes through unchanged. |
| Clients.DispatchHeader | src/main/java/ca/chopserver/Client.java:203-214 | The `try` block of `read` computes exactly `Connections.Handle` on the header in `inBuffer`. |
| Clients.DispatchCaught | src/main/java/ca/chopserver/Client.java:205-214 | The same, for the statuses whose handler may throw what `read` catches. |
| Clients.DispatchEnquiry | src/main/java/ca/chopserver/StatusType.java:138-143 | The same, for ENQUIRY. |
| Clients.ParseIdle | src/main/java/ca/chopserver/StatusType.java:226-239 | `IDLE.parse` applies the IDLE handshake step to the flags and queue. |
| Clients.ParseWakeup | src/main/java/ca/chopserver/StatusType.java:177-190 | `WAKEUP.parse` applies the WAKEUP handshake step. |
| Clients.ParseAcknowledge | src/main/java/ca/chopserver/StatusType.java:150-170 | An out-of-range control1 throws ArrayIndexOutOfBounds and changes nothing. Otherwise the confirmed constant sets the flags, and nothing is queued. |
| Clients.ParseNegAcknowledge | src/main/java/ca/chopserver/StatusType.java:218-224 | NEG_ACKNOWLEDGE throws ArrayIndexOutOfBounds exactly for an out-of-range control1, and otherwise does nothing. |
| Clients.ParseEscape | src/main/java/ca/chopserver/StatusType.java:249-257 | The method computes exactly `Connections.Escape`. |
| Clients.ParseEnquiry | src/main/java/ca/chopserver/StatusType.java:138-143 | `ENQUIRY.parse` computes the enquiry case of `Connections.Handle`, or throws for an unknown type. |
| Clients.ParseTime | src/main/java/ca/chopserver/EnquiryType.java:30-60 | The method computes exactly `Connections.TimeEnquiry`. |
| Clients.ParseStartText | src/main/java/ca/chopserver/StatusType.java:17-99 | The method computes exactly `Connections.StartText`, the exception from the log line included. |
| Clients.CountSegments | src/main/java/ca/chopserver/StatusType.java:62 | `bufferCount` in Java arithmetic is exactly the number of window segments the length needs. |
| Clients.KnownLengthRead | src/main/java/ca/chopserver/StatusType.java:61-90 | The known-length loop computes exactly the reference `KnownRead`: its outcome, the body, the input left and the window array. |
| Clients.ReceiveSegments | src/main/java/ca/chopserver/StatusType.java:71-90 | The `bufferCount` passes collect the segments in order, or stop at the first short one. |
| Clients.ScanForEndText | src/main/java/ca/chopserver/StatusType.java:43-48 | The scan finds END_TEXT exactly when it occurs somewhere in the array. |
| Clients.UnknownLengthRead | src/main/java/ca/chopserver/StatusType.java:26-58 | The unknown-length loop computes exactly the reference `UnknownRead`. |
| Legacy.FirstFree | src/main/java/ca/chopserver/Chopserver.java:82-87 | The result is the first empty slot: every slot before it is taken. There is none exactly when every slot is taken. |
| Legacy.Accept | src/main/java/ca/chopserver/Chopserver.java:76-91 | The table keeps its size. The key goes into the first empty slot and every other slot is unchanged. The table is unchanged exactly when no slot is empty. |
| Legacy.AcceptFillsInOrder | src/main/java/ca/chopserver/Chopserver.java:82-90 | On a table whose occupied slots form a prefix of length k, the key goes into slot k and the prefix grows by one. A full table is unchanged. |
| Legacy.FirstFreeIs | src/main/java/ca/chopserver/Chopserver.java:82-87 | An empty slot with every earlier slot taken is the one the loop picks. |
| Legacy.WholeWrite | src/main/java/ca/chopserver/Chopserver.java:103-127 | The legacy `write` removes the queue head and adds one entry to the wire, which only grows. Flags, deliveries, input and buffer are unchanged. |
| Legacy.WholeWriteTakesHead | src/main/java/ca/chopserver/Chopserver.java:103-127 | The legacy `write` removes the queue head and puts it on the wire in one piece, whatever its length. It drops OP_WRITE exactly when the queue is then empty. |
| Legacy.WholeFramesLeaveInOrder | src/main/java/ca/chopserver/Chopserver.java:103-127 | Two frames sent onto an empty queue leave whole, in order. |
| Legacy.WritersAgreeOnFittingFrames | src/main/java/ca/chopserver/Chopserver.java:103-127 | For a non-empty head frame that fits the window, the legacy and enum `write` do the same thing. |
| Legacy.WritersDifferOnLongFrames | src/main/java/ca/chopserver/Chopserver.java:113-121 | For a longer frame, the enum `write` throws and loses it, while the legacy one sends it whole. The segmented `write` sends the same bytes in more than one piece. |
| Legacy.HeaderRead | src/main/java/ca/chopserver/Chopserver.java:129-143 | The end of the stream throws "Client connection closed" and a short read throws "Incomplete header received". A status outside 0..31 throws ArrayIndexOutOfBounds. Otherwise the header is consumed and nothing else changes. |
| Legacy.ReadsDiffer | src/main/java/ca/chopserver/Chopserver.java:129-143 | On a header that does not arrive whole, the enum `read` returns quietly while the legacy one throws IOException. On a whole header the enum `read` dispatches it, while the legacy one neither replies nor changes a flag. |
| Legacy.DropRead | src/main/java/ca/chopserver/Chopserver.java:186-201 | The unknown-length loop ends exactly when END_TEXT is in the stream, with END_TEXT among the bytes read. The bytes read are a prefix of the stream. Otherwise it reaches the end of the stream and repeats for ever. |
| Legacy.LegacyText | src/main/java/ca/chopserver/Chopserver.java:182-227 | `parse_text` never changes the flags or delivered arrays. It queues `{0,6,2,0}` exactly when it ends normally, and otherwise queues nothing. |
| Legacy.UnknownLengthTextEnds | src/main/java/ca/chopserver/Chopserver.java:186-201 | With both controls 0, the legacy section ends exactly when END_TEXT is in the stream, and otherwise diverges. At the end of the stream the legacy one diverges, while the enum one throws. |
| Legacy.StaleMarkerStopsOnlyTheClient | src/main/java/ca/chopserver/Chopserver.java:192-200 | A stale END_TEXT in `inBuffer` ends the enum read after a short segment, while the legacy one, scanning fresh buffers, never ends. The enum handler leaves the rest of the stream unread. It delivers the header and the segment exactly when they decode one `char` per byte, and otherwise throws StringIndexOutOfBounds. |
| Legacy.KnownLengthOverRead | src/main/java/ca/chopserver/Chopserver.java:209-217 | The scattering read takes up to `bufferCount` whole windows. It can therefore swallow the next frame sent in the same chunk. The enum read leaves that frame unread, and its log line throws exactly when the section does not decode one `char` per byte. |
| Legacy.SignedLengths | src/main/java/ca/chopserver/Chopserver.java:209-212 | With the window of 255, `{0,2,-1,5}` makes one buffer and is acknowledged, while the enum handler fails its allocation. A product of -16256 gives a negative buffer count and fails. |
| Legacy.LegacyHandle | src/main/java/ca/chopserver/Chopserver.java:145-176 | `parse_header` never delivers, writes or closes anything. |
| Legacy.HandlersAgree | src/main/java/ca/chopserver/Chopserver.java:229-297 | On the handshake, known acknowledgements and the NORMAL, RETURN and RETURN_TIME enquiries, the whole legacy handling equals the enum handling. |
| Legacy.LegacyFlagsStayValid | src/main/java/ca/chopserver/Chopserver.java:253-297 | The legacy handlers keep both flags among 0, 22 and 24. |
| Chopserver.AcceptNewClient | src/main/java/ca/chopserver/Chopserver.java:76-91 | The slot loop computes exactly `Accept`. The key is accepted exactly when an empty slot existed. |
| Chopserver.Send | src/main/java/ca/chopserver/Chopserver.java:97-101 | The legacy `send` appends the frame and sets OP_WRITE, exactly like `Client.send`. |
| Chopserver.Write | src/main/java/ca/chopserver/Chopserver.java:103-127 | The method computes exactly `WholeWrite`. |
| Chopserver.ReadInto | src/main/java/ca/chopserver/Chopserver.java:133 | A read into a buffer of the caller's own stores the bytes at its start, and touches nothing else of the connection but its input. |
| Chopserver.Read | src/main/java/ca/chopserver/Chopserver.java:129-143 | The method computes exactly `HeaderRead`. |
| Chopserver.ParseHeader | src/main/java/ca/chopserver/Chopserver.java:145-176 | The method computes exactly `LegacyHandle`. |
| Chopserver.ParseReply | src/main/java/ca/chopserver/Chopserver.java:156-175 | The cases that read nothing more apply exactly the legacy dispatcher's effect. |
| Chopserver.ParseText | src/main/java/ca/chopserver/Chopserver.java:182-227 | The method computes exactly `LegacyText`. |
| Chopserver.DropLoop | src/main/java/ca/chopserver/Chopserver.java:186-201 | The loop ends as `DropRead` says and leaves the input it leaves. |
| Chopserver.EndTextInWindow | src/main/java/ca/chopserver/Chopserver.java:195-197 | A fresh window holds END_TEXT after a read exactly when the bytes read do. |
| Chopserver.ParseEnquiry | src/main/java/ca/chopserver/Chopserver.java:229-251 | `parse_enquiry` applies exactly the legacy enquiry replies. |
| Chopserver.ParseAcknowledge | src/main/java/ca/chopserver/Chopserver.java:253-269 | `values()[status]` throws for a status out of range. Otherwise the control1 switch sets the flags, and nothing is queued. |
| Chopserver.ParseNegAcknowledge | src/main/java/ca/chopserver/Chopserver.java:283-285 | `parse_neg_acknowledge` throws only for a status out of range. |
| Chopserver.ParseWakeup | src/main/java/ca/chopserver/Chopserver.java:271-281 | `parse_wakeup` applies the legacy WAKEUP step. |
| Chopserver.ParseIdle | src/main/java/ca/chopserver/Chopserver.java:287-297 | `parse_idle` applies the legacy IDLE step. |

## Left out

- The selector event loops are not modelled: `Client.run`, `Chopserver.main`, `Server.java`, `Chopclient` and `Timeclient`. They are readiness plumbing over NIO, threads and `System.exit`, so every method here runs as one atomic step, as if called by a loop.
- `ReentrantLock` is not modelled, so each method is atomic. `Client.read` and `Client.write` return early without unlocking, at Client.java:191-197 and 224-228; that is not captured.
- Logging and `System.out` are left out, except where building the message can throw. `getInt(0)` in `write` needs a window of four bytes. The log line of `START_TEXT.parse` decodes the section with `new String(ret)` and takes `substring(4, ret.length)`, which throws StringIndexOutOfBoundsException when the string is shorter than the array.
- The default charset is taken to be UTF-8, the default from Java 18 on. Under a single-byte default charset, such as windows-1252 on earlier JVMs on Windows, the log line never throws; that case is not modelled. Only the number of `char`s is modelled, not their values.
- `establish`, the client-side constructor and `Chopserver.process_request` and `parse_long_header` are not modelled; the last two are empty. ReadServer.java is not part of this model.
- The socket is a sequence of chunks the peer sent, and the wire is a sequence of writes: one entry per flushed `outBuffer`, or per whole frame in the legacy `write`.
  - Each `socket.write` call accepts between one byte and `writeCap` bytes, which is what makes the spin loops end.
  - The timing of partial reads is fixed by chunk boundaries.
- `register`, `interestOps` and `cancel` are a single `writeInterest` bit and a `closed` bit. The ClosedChannelException `register` can throw is not modelled. In `accept_new_client`, the accepted channel and its key are the parameter `newKey`, and closing a turned-away connection is the `accepted` result.
- The pipe of the unknown-length read is a growing sequence. Its 1024-byte buffer, which would block a single thread on a large body, is not modelled.
- `System.currentTimeMillis` is the parameter `now`. `Math.sqrt(n)` is the integer test `i*i < n`, which agrees with it for the lengths a Java array can have.
- The scattering read of the legacy `parse_text` into `bufferCount` buffers is one read into one array of their total room. A scattering NIO read may take fewer bytes when a chunk boundary falls inside a buffer, and that detail is not modelled.
- The legacy unknown-length loop never ends once the stream ends without END_TEXT. The function reports that as the outcome `Diverges`, and `Chopserver.DropLoop` as `found` false.
- In the enum unknown-length read, a read of -1 after earlier reads makes `outStream.write(..., -1)` throw IndexOutOfBoundsException, which is what is modelled. The final `inStream.read(ret) != total` check cannot fail once the pipe holds `total` bytes, so it is not modelled.
- Connections.Write: its own ensures states only that the sizes are kept. Its behaviour is stated by the lemmas about it, and `Clients.Client.Write` is proved equal to it.
- Connections.SegmentedWrite: its own ensures states only that the sizes are kept; SegmentedWriteSendsWholeFrame states its behaviour.
- Connections.ForceSend: its own ensures states only that the sizes are kept; ForceSendWritesHead states its behaviour.
- Connections.StartText: its own ensures states only that the sizes are kept; KnownLengthText, UnknownLengthText, SignedControls and Received state its behaviour.
- Connections.TimeEnquiry: its own ensures states only that the sizes are kept; TimeEnquiryAnswer states its behaviour.
- Connections.Escape: its own ensures states only that the sizes are kept; EscapeAcknowledgesThenCloses states its behaviour.
- Connections.Read: its own ensures states only that the sizes are kept; IncompleteHeaderIgnored, ReadRefusesUnsupported and ReadWholeHeader state its behaviour.
- Connections.Handle: its own ensures states only that the sizes are kept; the Protocol lemmas and HandleEnquiry state its behaviour.
- Transfer.KnownRead: its own ensures states only the size of the window array; KnownReadDelivers, KnownReadShortFails and KnownReadWhole state its behaviour.
- Transfer.UnknownRead: its own ensures states only the size of the window array; UnknownReadDelivers and the marker lemmas state its behaviour.
- The model follows the code where the protocol description differs from it:
  - CANCEL is described as a terminal flag state, but both ACKNOWLEDGE handlers overwrite it (Protocol.CancelIsOverwritten).
  - The unknown-length read stops at a stale END_TEXT left in `inBuffer`.
  - The START_TEXT encoder silently falls back to (0, 0) instead of rejecting a length.
- `ForceSend` and `Escape` use `write` as written. The only frame they force, `{0,6,27,0}`, fits any window of at least four bytes.

## Findings

| source | as written | input that shows it | evidently intended | confidence | as-written member | corrected member |
|---|---|---|---|---|---|---|
| src/main/java/ca/chopserver/StatusType.java:119-121 | The guard `ret[2] < 0` tests a byte the search only ever sets to a value in 1..127, or leaves at 0. So the IllegalArgumentException is never thrown, and an unencodable length is sent as (0, 0), which announces a body of unknown length. | a 131-byte body | reject a length with no byte-sized factor pair | high; not executed | StatusTypes.StartTextPrimeFallsBack | StatusTypes.CheckedStartTextBytesCorrect |
| src/main/java/ca/chopserver/StatusType.java:110 | The loop runs while `i < Math.sqrt(n)`, so a perfect square's root is never tried. | a 169-byte body (13 * 13) | try divisors up to and including the square root | medium; not executed | StatusTypes.StartTextSquareFallsBack | StatusTypes.CheckedStartTextBytesOnFallbacks |
| src/main/java/ca/chopserver/Client.java:237-238 | The whole frame is `put` into `outBuffer`, whose capacity is the window. A longer frame throws BufferOverflowException after it has left the queue, and the segment loop meant to cut it up is never reached. | window 255, a 256-byte frame | send any frame as `ceil(len / W)` segments | high; not executed | Connections.WriteLosesFrameOneLongerThanWindow | Connections.SegmentedWriteSendsWholeFrame |
