/**
 * The flag handshake and the replies to headers that carry no body, as pure
 * functions of the flags and the four header bytes. Two dispatchers are
 * defined: the enum handlers reached through `Client.read` (each status's
 * `parse` override, with the NEG_ACKNOWLEDGE fallback for an undefined or
 * unsupported status) and the older static `Chopserver.parse_header`.
 */
module Protocol {
  import opened Java
  import opened Results
  import opened Packet
  import opened StatusTypes
  import EnquiryTypes

  /** `incomingFlag` and `outgoingFlag` hold one of three status codes: NULL (normal), IDLE or CANCEL. */
  predicate ValidFlag(x: int)
  {
    x == NULL || x == IDLE || x == CANCEL
  }

  datatype Flags = Flags(incoming: int, outgoing: int)

  predicate ValidFlags(f: Flags)
  {
    ValidFlag(f.incoming) && ValidFlag(f.outgoing)
  }

  /** Both constructors of `Client` start with both flags 0. */
  const INITIAL_FLAGS: Flags := Flags(0, 0)

  /** `ACKNOWLEDGE.bytes(c)`. */
  function Ack(c: JByte): Bytes
  {
    StatusBytes1(Acknowledge, c)
  }

  /** `NEG_ACKNOWLEDGE.bytes(c)`. */
  function Nak(c: JByte): Bytes
  {
    StatusBytes1(NegAcknowledge, c)
  }

  /** The RETURN_TIME reply: a TIME enquiry header announcing eight bytes, then the clock reading, big-endian. */
  function TimeFrame(now: Long): Bytes
  {
    [NULL, ENQUIRY, TIME, ToByte(LONG_BYTES)] + PutLong(now)
  }

  /** What handling one header does when no body is read: the new flags and the frames queued, in order. */
  datatype Effect = Effect(flags: Flags, replies: seq<Bytes>)

  /**
   * Where a dispatcher sends a header: an immediate effect, the START_TEXT
   * body read, the TIME payload read, or the ESCAPE shutdown.
   */
  datatype Dispatch = Done(effect: Effect) | TextBody | TimeBody | Shutdown

  // ---------------------------------------------------------------------
  // The enum handlers

  /** `IDLE.parse`: a sleep request is granted only from the normal state. */
  function IdleRequest(f: Flags): (e: Effect)
    ensures |e.replies| == 1 && e.flags.outgoing == f.outgoing
    ensures e.replies[0] == [NULL, ACKNOWLEDGE, IDLE, NULL] <==> f.incoming == NULL
    ensures e.replies[0] != [NULL, ACKNOWLEDGE, IDLE, NULL] ==> e.flags == f && e.replies[0] == [NULL, NEG_ACKNOWLEDGE, IDLE, NULL]
    ensures ValidFlags(f) ==> ValidFlags(e.flags)
  {
    if f.incoming == NULL then Effect(f.(incoming := IDLE), [Ack(IDLE)])
    else Effect(f, [Nak(IDLE)])
  }

  /** `WAKEUP.parse`: a wake-up request is granted only from the idle state. */
  function WakeupRequest(f: Flags): (e: Effect)
    ensures |e.replies| == 1 && e.flags.outgoing == f.outgoing
    ensures e.replies[0] == [NULL, ACKNOWLEDGE, WAKEUP, NULL] <==> f.incoming == IDLE
    ensures e.replies[0] != [NULL, ACKNOWLEDGE, WAKEUP, NULL] ==> e.flags == f && e.replies[0] == [NULL, NEG_ACKNOWLEDGE, WAKEUP, NULL]
    ensures ValidFlags(f) ==> ValidFlags(e.flags)
  {
    if f.incoming == IDLE then Effect(f.(incoming := NULL), [Ack(WAKEUP)])
    else Effect(f, [Nak(WAKEUP)])
  }

  /** `ACKNOWLEDGE.parse`: the switch over the confirmed constant. */
  function Acknowledged(f: Flags, confirmed: StatusType): (g: Flags)
    ensures ValidFlags(f) ==> ValidFlags(g)
    ensures g.outgoing != f.outgoing ==> g == Flags(CANCEL, CANCEL)
    ensures !(confirmed.Wakeup? || confirmed.Idle? || confirmed.Escape?) ==> g == f
    ensures confirmed.Wakeup? ==> g == f.(incoming := NULL)
    ensures confirmed.Idle? ==> g == f.(incoming := IDLE)
    ensures confirmed.Escape? ==> g == Flags(CANCEL, CANCEL)
  {
    match confirmed
    case Wakeup => f.(incoming := Ordinal(Null))
    case Idle => f.(incoming := Ordinal(Idle))
    case Escape => Flags(Ordinal(Cancel), Ordinal(Cancel))
    case _ => f
  }

  /**
   * `Client.read` once a whole header has arrived: `fromOrdinal(status)`
   * and the constant's `parse`. An ArrayIndexOutOfBoundsException (status or
   * control1 outside the enumeration) or an UnsupportedOperationException (a
   * constant without its own `parse`) is answered with
   * `NEG_ACKNOWLEDGE.bytes(status)`.
   */
  function ClientDispatch(f: Flags, h: Bytes, now: Long): (d: Dispatch)
    requires |h| == HEADER_LEN
    ensures d.TextBody? <==> h[PACKET_STATUS] == START_TEXT
    ensures d.TimeBody? <==> h[PACKET_STATUS] == ENQUIRY && h[PACKET_CONTROL1] == TIME
    ensures d.Shutdown? <==> h[PACKET_STATUS] == ESCAPE
    ensures d.Done? ==> |d.effect.replies| <= 1
  {
    var status := h[PACKET_STATUS];
    var control1 := h[PACKET_CONTROL1];
    var refused := Done(Effect(f, [Nak(status)]));
    match FromOrdinal(status)
    case None => refused
    case Some(s) =>
      match s
      case StartText => TextBody
      case Enquiry =>
        (match EnquiryTypes.FromOrdinal(control1)
         case None => refused
         case Some(Normal) => Done(Effect(f, [[NULL, ACKNOWLEDGE, ENQUIRY, NULL]]))
         case Some(Return) => Done(Effect(f, [[NULL, ENQUIRY, NULL, NULL]]))
         case Some(Time) => TimeBody
         case Some(ReturnTime) => Done(Effect(f, [TimeFrame(now)])))
      case Acknowledge =>
        (match FromOrdinal(control1)
         case None => refused
         case Some(confirmed) => Done(Effect(Acknowledged(f, confirmed), [])))
      case Wakeup => Done(WakeupRequest(f))
      case NegAcknowledge => if FromOrdinal(control1).None? then refused else Done(Effect(f, []))
      case Idle => Done(IdleRequest(f))
      case Escape => Shutdown
      case _ => refused
  }

  // ---------------------------------------------------------------------
  // The legacy static dispatcher

  /** `parse_idle`. */
  function LegacyIdle(f: Flags): (e: Effect)
    ensures e == IdleRequest(f)
  {
    if f.incoming == NULL then Effect(f.(incoming := IDLE), [[NULL, ACKNOWLEDGE, IDLE, NULL]])
    else Effect(f, [[NULL, NEG_ACKNOWLEDGE, IDLE, NULL]])
  }

  /** `parse_wakeup`. */
  function LegacyWakeup(f: Flags): (e: Effect)
    ensures e == WakeupRequest(f)
  {
    if f.incoming == IDLE then Effect(f.(incoming := NULL), [[NULL, ACKNOWLEDGE, WAKEUP, NULL]])
    else Effect(f, [[NULL, NEG_ACKNOWLEDGE, WAKEUP, NULL]])
  }

  /** `parse_acknowledge`: the switch over the raw control1 byte. */
  function LegacyAcknowledged(f: Flags, control1: JByte): (g: Flags)
    ensures FromOrdinal(control1).Some? ==> g == Acknowledged(f, FromOrdinal(control1).value)
    ensures ValidFlags(f) ==> ValidFlags(g)
  {
    if control1 == WAKEUP then f.(incoming := NULL)
    else if control1 == IDLE then f.(incoming := IDLE)
    else if control1 == ESCAPE then Flags(CANCEL, CANCEL)
    else f
  }

  /** `parse_enquiry`: the switch over control1; a TIME enquiry is answered without reading its payload. */
  function LegacyEnquiry(control1: JByte, now: Long): (replies: seq<Bytes>)
    ensures |replies| <= 1
    ensures replies == [] <==> EnquiryTypes.FromOrdinal(control1).None?
  {
    if control1 == NORMAL then [[NULL, ACKNOWLEDGE, ENQUIRY, NULL]]
    else if control1 == RETURN then [[NULL, ENQUIRY, NULL, NULL]]
    else if control1 == TIME then [[NULL, ACKNOWLEDGE, ENQUIRY, NULL]]
    else if control1 == RETURN_TIME then [TimeFrame(now)]
    else []
  }

  /**
   * `parse_header`: the switch over the status byte. NULL, START_HEADER,
   * NEG_ACKNOWLEDGE, ESCAPE (which only prints) and every unlisted status
   * change nothing and queue nothing.
   */
  function LegacyDispatch(f: Flags, h: Bytes, now: Long): (d: Dispatch)
    requires |h| == HEADER_LEN
    ensures d.TextBody? <==> h[PACKET_STATUS] == START_TEXT
    ensures d.Done? || d.TextBody?
  {
    var status := h[PACKET_STATUS];
    var control1 := h[PACKET_CONTROL1];
    if status == START_TEXT then TextBody
    else if status == ENQUIRY then Done(Effect(f, LegacyEnquiry(control1, now)))
    else if status == ACKNOWLEDGE then Done(Effect(LegacyAcknowledged(f, control1), []))
    else if status == WAKEUP then Done(LegacyWakeup(f))
    else if status == IDLE then Done(LegacyIdle(f))
    else Done(Effect(f, []))
  }

  // ---------------------------------------------------------------------
  // The handshake

  /** The statuses whose handlers read further bytes, reply, or change a flag, in the enum dispatcher. */
  predicate Overridden(status: int)
  {
    status in {START_TEXT, ENQUIRY, ACKNOWLEDGE, WAKEUP, NEG_ACKNOWLEDGE, IDLE, ESCAPE}
  }

  /**
   * A sleep request is granted exactly when the receiver is in the normal
   * state: its incoming flag becomes IDLE and it answers `{0,6,22,0}`;
   * otherwise nothing changes and it answers `{0,21,22,0}`.
   */
  lemma IdleRequestAnswer(f: Flags, h: Bytes, now: Long)
    requires |h| == HEADER_LEN && h[PACKET_STATUS] == IDLE
    ensures ClientDispatch(f, h, now).Done?
    ensures var e := ClientDispatch(f, h, now).effect;
      && (f.incoming == NULL ==> e.flags == Flags(IDLE, f.outgoing) && e.replies == [[NULL, ACKNOWLEDGE, IDLE, NULL]])
      && (f.incoming != NULL ==> e.flags == f && e.replies == [[NULL, NEG_ACKNOWLEDGE, IDLE, NULL]])
  {
    assert FromOrdinal(IDLE) == Some(Idle);
  }

  /**
   * A wake-up request is granted exactly when the receiver is idle: its
   * incoming flag goes back to NULL and it answers `{0,6,7,0}`; otherwise
   * nothing changes and it answers `{0,21,7,0}`.
   */
  lemma WakeupRequestAnswer(f: Flags, h: Bytes, now: Long)
    requires |h| == HEADER_LEN && h[PACKET_STATUS] == WAKEUP
    ensures ClientDispatch(f, h, now).Done?
    ensures var e := ClientDispatch(f, h, now).effect;
      && (f.incoming == IDLE ==> e.flags == Flags(NULL, f.outgoing) && e.replies == [[NULL, ACKNOWLEDGE, WAKEUP, NULL]])
      && (f.incoming != IDLE ==> e.flags == f && e.replies == [[NULL, NEG_ACKNOWLEDGE, WAKEUP, NULL]])
  {
    assert FromOrdinal(WAKEUP) == Some(Wakeup);
  }

  /**
   * The two ends agree after a request: when the responder grants IDLE or
   * WAKEUP, the requester, handling the acknowledgement, sets its incoming
   * flag to the value the responder now holds; when the responder refuses,
   * the requester's flags stay as they were.
   */
  lemma RequesterFollowsResponder(responder: Flags, requester: Flags, request: Bytes, now: Long)
    requires |request| == HEADER_LEN && (request[PACKET_STATUS] == IDLE || request[PACKET_STATUS] == WAKEUP)
    ensures ClientDispatch(responder, request, now).Done?
    ensures var e := ClientDispatch(responder, request, now).effect;
      && |e.replies| == 1 && |e.replies[0]| == HEADER_LEN
      && ClientDispatch(requester, e.replies[0], now).Done?
      && var answer := ClientDispatch(requester, e.replies[0], now).effect;
      && answer.replies == []
      && (e.flags != responder ==> answer.flags == requester.(incoming := e.flags.incoming))
      && (e.flags == responder ==> answer.flags == requester)
  {
    var e := ClientDispatch(responder, request, now).effect;
    if request[PACKET_STATUS] == IDLE {
      IdleRequestAnswer(responder, request, now);
      assert FromOrdinal(IDLE) == Some(Idle);
    } else {
      WakeupRequestAnswer(responder, request, now);
      assert FromOrdinal(WAKEUP) == Some(Wakeup);
    }
    assert FromOrdinal(ACKNOWLEDGE) == Some(Acknowledge);
    assert FromOrdinal(NEG_ACKNOWLEDGE) == Some(NegAcknowledge);
  }

  /** Sleeping and waking from the normal state: both requests are granted and the flags come back to where they were. */
  lemma SleepThenWake(f: Flags, sleep: Bytes, wake: Bytes, now: Long)
    requires f.incoming == NULL
    requires |sleep| == HEADER_LEN && sleep[PACKET_STATUS] == IDLE
    requires |wake| == HEADER_LEN && wake[PACKET_STATUS] == WAKEUP
    ensures ClientDispatch(f, sleep, now).Done?
    ensures var asleep := ClientDispatch(f, sleep, now).effect.flags;
      && asleep.incoming == IDLE
      && ClientDispatch(asleep, wake, now) == Done(Effect(f, [[NULL, ACKNOWLEDGE, WAKEUP, NULL]]))
      && ClientDispatch(asleep, sleep, now) == Done(Effect(asleep, [[NULL, NEG_ACKNOWLEDGE, IDLE, NULL]]))
  {
    IdleRequestAnswer(f, sleep, now);
    var asleep := ClientDispatch(f, sleep, now).effect.flags;
    WakeupRequestAnswer(asleep, wake, now);
    IdleRequestAnswer(asleep, sleep, now);
  }

  /** A connection in the normal state refuses to be woken. */
  lemma WakeupRefusedWhenAwake(wake: Bytes, now: Long)
    requires |wake| == HEADER_LEN && wake[PACKET_STATUS] == WAKEUP
    ensures ClientDispatch(INITIAL_FLAGS, wake, now) == Done(Effect(INITIAL_FLAGS, [[NULL, NEG_ACKNOWLEDGE, WAKEUP, NULL]]))
  {
    WakeupRequestAnswer(INITIAL_FLAGS, wake, now);
  }

  /** Neither dispatcher ever stores a value other than 0, 22 or 24 in a flag. */
  lemma FlagsStayValid(f: Flags, h: Bytes, now: Long)
    requires |h| == HEADER_LEN && ValidFlags(f)
    ensures ClientDispatch(f, h, now).Done? ==> ValidFlags(ClientDispatch(f, h, now).effect.flags)
    ensures LegacyDispatch(f, h, now).Done? ==> ValidFlags(LegacyDispatch(f, h, now).effect.flags)
  {
  }

  /**
   * CANCEL is not final: once both flags are CANCEL, an acknowledged
   * WAKEUP or IDLE overwrites the incoming flag, in both dispatchers.
   */
  lemma CancelIsOverwritten(h: Bytes, now: Long)
    requires |h| == HEADER_LEN && h[PACKET_STATUS] == ACKNOWLEDGE
    requires h[PACKET_CONTROL1] == WAKEUP || h[PACKET_CONTROL1] == IDLE
    ensures var cancelled := Flags(CANCEL, CANCEL);
      var after := Flags(if h[PACKET_CONTROL1] == WAKEUP then NULL else IDLE, CANCEL);
      && ClientDispatch(cancelled, h, now) == Done(Effect(after, []))
      && LegacyDispatch(cancelled, h, now) == Done(Effect(after, []))
  {
    assert FromOrdinal(ACKNOWLEDGE) == Some(Acknowledge);
    assert FromOrdinal(WAKEUP) == Some(Wakeup);
    assert FromOrdinal(IDLE) == Some(Idle);
  }

  /**
   * The requester's half of each handshake, in both dispatchers: an
   * ACKNOWLEDGE of WAKEUP sets the incoming flag to NULL, one of IDLE sets
   * it to IDLE, and one of ESCAPE sets both flags to CANCEL; nothing is
   * queued in reply.
   */
  lemma AcknowledgementSetsFlags(f: Flags, h: Bytes, now: Long)
    requires |h| == HEADER_LEN && h[PACKET_STATUS] == ACKNOWLEDGE
    requires h[PACKET_CONTROL1] == WAKEUP || h[PACKET_CONTROL1] == IDLE || h[PACKET_CONTROL1] == ESCAPE
    ensures var g := if h[PACKET_CONTROL1] == WAKEUP then f.(incoming := NULL)
                     else if h[PACKET_CONTROL1] == IDLE then f.(incoming := IDLE)
                     else Flags(CANCEL, CANCEL);
      && ClientDispatch(f, h, now) == Done(Effect(g, []))
      && LegacyDispatch(f, h, now) == Done(Effect(g, []))
  {
    assert FromOrdinal(ACKNOWLEDGE) == Some(Acknowledge);
    assert FromOrdinal(WAKEUP) == Some(Wakeup);
    assert FromOrdinal(IDLE) == Some(Idle);
    assert FromOrdinal(ESCAPE) == Some(Escape);
  }

  /**
   * The enum dispatcher answers every whole header it handles itself with
   * exactly one frame, except an ACKNOWLEDGE or NEG_ACKNOWLEDGE naming a
   * status in range, which it answers with none; and only ACKNOWLEDGE,
   * WAKEUP and IDLE change a flag.
   */
  lemma ClientReplies(f: Flags, h: Bytes, now: Long)
    requires |h| == HEADER_LEN
    ensures ClientDispatch(f, h, now).Done? ==>
      var e := ClientDispatch(f, h, now).effect;
      && |e.replies| <= 1
      && (e.replies == [] <==>
            (h[PACKET_STATUS] == ACKNOWLEDGE || h[PACKET_STATUS] == NEG_ACKNOWLEDGE) && 0 <= h[PACKET_CONTROL1] < VALUES_COUNT)
      && (e.flags != f ==> h[PACKET_STATUS] in {ACKNOWLEDGE, WAKEUP, IDLE})
  {
    var status := h[PACKET_STATUS];
    if 0 <= status < VALUES_COUNT {
      assert FromOrdinal(status) == Some(ValueAt(status));
    }
  }

  /**
   * An undefined status byte (negative, which is 128..255 on the wire, or
   * above 31) or a status without its own handler is answered with exactly
   * `{0,21,status,0}` and changes no flag.
   */
  lemma UnsupportedStatusRefused(f: Flags, h: Bytes, now: Long)
    requires |h| == HEADER_LEN && !Overridden(h[PACKET_STATUS])
    ensures ClientDispatch(f, h, now) == Done(Effect(f, [[NULL, NEG_ACKNOWLEDGE, h[PACKET_STATUS], NULL]]))
  {
    var status := h[PACKET_STATUS];
    if 0 <= status < VALUES_COUNT {
      assert FromOrdinal(status) == Some(ValueAt(status));
    }
  }

  /**
   * A control1 outside the enumeration it names fails `fromOrdinal` inside
   * the ENQUIRY, ACKNOWLEDGE and NEG_ACKNOWLEDGE handlers before any change:
   * the answer is a refusal of the status itself.
   */
  lemma BadControlRefused(f: Flags, h: Bytes, now: Long)
    requires |h| == HEADER_LEN
    requires || (h[PACKET_STATUS] == ENQUIRY && !(0 <= h[PACKET_CONTROL1] < 4))
             || ((h[PACKET_STATUS] == ACKNOWLEDGE || h[PACKET_STATUS] == NEG_ACKNOWLEDGE) && !(0 <= h[PACKET_CONTROL1] < VALUES_COUNT))
    ensures ClientDispatch(f, h, now) == Done(Effect(f, [[NULL, NEG_ACKNOWLEDGE, h[PACKET_STATUS], NULL]]))
  {
    assert FromOrdinal(ENQUIRY) == Some(Enquiry);
    assert FromOrdinal(ACKNOWLEDGE) == Some(Acknowledge);
    assert FromOrdinal(NEG_ACKNOWLEDGE) == Some(NegAcknowledge);
  }

  /** A TIME enquiry header announcing eight bytes sends the enum dispatcher on to read the payload. */
  lemma TimeHeaderDispatch(f: Flags, now: Long)
    ensures ClientDispatch(f, [NULL, ENQUIRY, TIME, 8], now) == TimeBody
  {
    assert FromOrdinal(ENQUIRY) == Some(Enquiry);
  }

  /** The RETURN_TIME reply is a four-byte TIME header announcing eight bytes, then those eight bytes. */
  lemma TimeFrameLayout(now: Long)
    ensures |TimeFrame(now)| == HEADER_LEN + LONG_BYTES
    ensures TimeFrame(now)[..HEADER_LEN] == [NULL, ENQUIRY, TIME, 8]
  {
  }

  /**
   * The enquiry replies: NORMAL is acknowledged, RETURN is answered with a
   * NORMAL enquiry `{0,5,0,0}`, RETURN_TIME with a TIME enquiry of eight
   * bytes holding the clock. No enquiry changes a flag.
   */
  lemma EnquiryAnswers(f: Flags, h: Bytes, now: Long)
    requires |h| == HEADER_LEN && h[PACKET_STATUS] == ENQUIRY && h[PACKET_CONTROL1] != TIME && 0 <= h[PACKET_CONTROL1] < 4
    ensures ClientDispatch(f, h, now).Done?
    ensures var e := ClientDispatch(f, h, now).effect;
      && e.flags == f && |e.replies| == 1
      && (h[PACKET_CONTROL1] == NORMAL ==> e.replies[0] == Ack(ENQUIRY))
      && (h[PACKET_CONTROL1] == RETURN ==> e.replies[0] == EnquiryTypes.EnquiryBytes(EnquiryTypes.Normal))
      && (h[PACKET_CONTROL1] == RETURN_TIME ==>
            && |e.replies[0]| == HEADER_LEN + LONG_BYTES
            && e.replies[0][..HEADER_LEN] == EnquiryTypes.EnquiryBytes1(EnquiryTypes.Time, 8)
            && GetLong(e.replies[0][HEADER_LEN..]) == now)
  {
    assert FromOrdinal(ENQUIRY) == Some(Enquiry);
    if h[PACKET_CONTROL1] == RETURN_TIME {
      LongRoundTrip(now);
      assert TimeFrame(now)[HEADER_LEN..] == PutLong(now);
    }
  }

  /**
   * The legacy enquiry replies: NORMAL and TIME are acknowledged with
   * `{0,6,5,0}` (TIME without reading a payload), RETURN is answered with
   * `{0,5,0,0}`, RETURN_TIME with the TIME frame of the clock, and any
   * other code with nothing. No enquiry changes a flag.
   */
  lemma LegacyEnquiryAnswers(f: Flags, h: Bytes, now: Long)
    requires |h| == HEADER_LEN && h[PACKET_STATUS] == ENQUIRY
    ensures LegacyDispatch(f, h, now).Done?
    ensures var e := LegacyDispatch(f, h, now).effect;
      && e.flags == f
      && (h[PACKET_CONTROL1] == NORMAL || h[PACKET_CONTROL1] == TIME ==> e.replies == [Ack(ENQUIRY)])
      && (h[PACKET_CONTROL1] == RETURN ==> e.replies == [EnquiryTypes.EnquiryBytes(EnquiryTypes.Normal)])
      && (h[PACKET_CONTROL1] == RETURN_TIME ==> e.replies == [TimeFrame(now)])
      && (e.replies == [] <==> !(0 <= h[PACKET_CONTROL1] < 4))
  {
  }

  /**
   * `parse_header` ignores every status it has no case for, and NULL,
   * START_HEADER, NEG_ACKNOWLEDGE and ESCAPE as well: no flag changes and
   * nothing is queued.
   */
  lemma LegacyIgnores(f: Flags, h: Bytes, now: Long)
    requires |h| == HEADER_LEN
    requires h[PACKET_STATUS] !in {START_TEXT, ENQUIRY, ACKNOWLEDGE, WAKEUP, IDLE}
    ensures LegacyDispatch(f, h, now) == Done(Effect(f, []))
  {
  }

  // ---------------------------------------------------------------------
  // The two dispatchers side by side

  /**
   * Where both dispatchers handle a header they do the same thing: the
   * IDLE/WAKEUP handshake, every ACKNOWLEDGE or NEG_ACKNOWLEDGE naming a
   * status in range, the NORMAL, RETURN and RETURN_TIME enquiries, and the
   * hand-over of START_TEXT to a body read.
   */
  lemma DispatchersAgree(f: Flags, h: Bytes, now: Long)
    requires |h| == HEADER_LEN
    requires var status, control1 := h[PACKET_STATUS], h[PACKET_CONTROL1];
      || status == IDLE || status == WAKEUP || status == START_TEXT
      || ((status == ACKNOWLEDGE || status == NEG_ACKNOWLEDGE) && 0 <= control1 < VALUES_COUNT)
      || (status == ENQUIRY && control1 in {NORMAL, RETURN, RETURN_TIME})
    ensures ClientDispatch(f, h, now) == LegacyDispatch(f, h, now)
  {
    var status, control1 := h[PACKET_STATUS], h[PACKET_CONTROL1];
    assert FromOrdinal(status) == Some(ValueAt(status)) by {
      assert 0 <= status < VALUES_COUNT;
    }
    if status == ACKNOWLEDGE {
      assert FromOrdinal(control1) == Some(ValueAt(control1));
      OrdinalsAreStatusCodes();
    }
  }

  /**
   * Where they differ. A status byte of 200 (-56 as a Java byte) is refused
   * by the enum dispatcher and ignored by the legacy one; so are NULL and an
   * ACKNOWLEDGE naming status 40. A TIME enquiry makes the enum dispatcher
   * read its payload, while the legacy one acknowledges it at once. ESCAPE
   * shuts the connection down in one and only prints in the other.
   */
  lemma DispatchersDiffer(f: Flags, now: Long)
    ensures ClientDispatch(f, [0, -56, 0, 0], now) == Done(Effect(f, [[0, 21, -56, 0]]))
    ensures LegacyDispatch(f, [0, -56, 0, 0], now) == Done(Effect(f, []))
    ensures ClientDispatch(f, [0, 0, 0, 0], now) == Done(Effect(f, [[0, 21, 0, 0]]))
    ensures LegacyDispatch(f, [0, 0, 0, 0], now) == Done(Effect(f, []))
    ensures ClientDispatch(f, [0, 6, 40, 0], now) == Done(Effect(f, [[0, 21, 6, 0]]))
    ensures LegacyDispatch(f, [0, 6, 40, 0], now) == Done(Effect(f, []))
    ensures ClientDispatch(f, [0, 5, 2, 8], now) == TimeBody
    ensures LegacyDispatch(f, [0, 5, 2, 8], now) == Done(Effect(f, [[0, 6, 5, 0]]))
    ensures ClientDispatch(f, [0, 27, 0, 0], now) == Shutdown
    ensures LegacyDispatch(f, [0, 27, 0, 0], now) == Done(Effect(f, []))
  {
    assert FromOrdinal(0) == Some(Null);
    assert FromOrdinal(5) == Some(Enquiry);
    assert FromOrdinal(6) == Some(Acknowledge);
    assert FromOrdinal(27) == Some(Escape);
  }
}
