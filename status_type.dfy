/**
 * The status enumeration: one constant per ASCII C0 control code, in code
 * order, so that a constant's ordinal is its status byte. Also the header
 * builders and the START_TEXT encoder that packs a body length into the two
 * control bytes as a factor pair.
 */
module StatusTypes {
  import opened Java
  import opened Results
  import opened Packet

  datatype StatusType =
    | Null | StartHeader | StartText | EndText | EndTransmission | Enquiry | Acknowledge | Wakeup
    | Un1 | Un2 | Un3 | Un4 | Un5 | Un6 | ShiftOut | ShiftIn
    | StartData | ControlOne | ControlTwo | ControlThree | ControlFour | NegAcknowledge | Idle
    | EndTransmissionBlock | Cancel | EndOfMedium | Substitute | Escape
    | FileSeparator | GroupSeparator | RecordSeparator | UnitSeparator

  /** `values().length`: the number of constants. */
  const VALUES_COUNT: nat := 32

  /** `ordinal()`: the position of the constant in `values()`. */
  function Ordinal(s: StatusType): (r: nat)
    ensures r < VALUES_COUNT
  {
    match s
    case Null => 0 case StartHeader => 1 case StartText => 2 case EndText => 3
    case EndTransmission => 4 case Enquiry => 5 case Acknowledge => 6 case Wakeup => 7
    case Un1 => 8 case Un2 => 9 case Un3 => 10 case Un4 => 11
    case Un5 => 12 case Un6 => 13 case ShiftOut => 14 case ShiftIn => 15
    case StartData => 16 case ControlOne => 17 case ControlTwo => 18 case ControlThree => 19
    case ControlFour => 20 case NegAcknowledge => 21 case Idle => 22 case EndTransmissionBlock => 23
    case Cancel => 24 case EndOfMedium => 25 case Substitute => 26 case Escape => 27
    case FileSeparator => 28 case GroupSeparator => 29 case RecordSeparator => 30 case UnitSeparator => 31
  }

  /**
   * `fromOrdinal(i)` is `values()[i]`: defined exactly on 0..31, and the
   * inverse of `ordinal()` there. Anything else raises
   * ArrayIndexOutOfBoundsException, modelled as None.
   */
  function FromOrdinal(i: int): (r: Option<StatusType>)
    ensures r.Some? <==> 0 <= i < VALUES_COUNT
    ensures r.Some? ==> Ordinal(r.value) == i
  {
    if 0 <= i < VALUES_COUNT then Some(ValueAt(i)) else None
  }

  /** `values()[i]` for an index in range, looked up a quarter of the table at a time. */
  function ValueAt(i: nat): (s: StatusType)
    requires i < VALUES_COUNT
    ensures Ordinal(s) == i
  {
    if i < 8 then ValueAt0(i) else if i < 16 then ValueAt8(i) else if i < 24 then ValueAt16(i) else ValueAt24(i)
  }

  function ValueAt0(i: nat): (s: StatusType)
    requires i < 8
    ensures Ordinal(s) == i
  {
    match i
    case 0 => Null case 1 => StartHeader case 2 => StartText case 3 => EndText
    case 4 => EndTransmission case 5 => Enquiry case 6 => Acknowledge case _ => Wakeup
  }

  function ValueAt8(i: nat): (s: StatusType)
    requires 8 <= i < 16
    ensures Ordinal(s) == i
  {
    match i
    case 8 => Un1 case 9 => Un2 case 10 => Un3 case 11 => Un4
    case 12 => Un5 case 13 => Un6 case 14 => ShiftOut case _ => ShiftIn
  }

  function ValueAt16(i: nat): (s: StatusType)
    requires 16 <= i < 24
    ensures Ordinal(s) == i
  {
    match i
    case 16 => StartData case 17 => ControlOne case 18 => ControlTwo case 19 => ControlThree
    case 20 => ControlFour case 21 => NegAcknowledge case 22 => Idle case _ => EndTransmissionBlock
  }

  function ValueAt24(i: nat): (s: StatusType)
    requires 24 <= i < VALUES_COUNT
    ensures Ordinal(s) == i
  {
    match i
    case 24 => Cancel case 25 => EndOfMedium case 26 => Substitute case 27 => Escape
    case 28 => FileSeparator case 29 => GroupSeparator case 30 => RecordSeparator case _ => UnitSeparator
  }

  /** Every constant comes back from its own ordinal. */
  lemma FromOrdinalOrdinal(s: StatusType)
    ensures FromOrdinal(Ordinal(s)) == Some(s)
  {
  }

  /** Each named constant's ordinal is the status code of the same name. */
  lemma OrdinalsAreStatusCodes()
    ensures Ordinal(Null) == NULL && Ordinal(StartHeader) == START_HEADER
    ensures Ordinal(StartText) == START_TEXT && Ordinal(EndText) == END_TEXT
    ensures Ordinal(Enquiry) == ENQUIRY && Ordinal(Acknowledge) == ACKNOWLEDGE
    ensures Ordinal(Wakeup) == WAKEUP && Ordinal(NegAcknowledge) == NEG_ACKNOWLEDGE
    ensures Ordinal(Idle) == IDLE && Ordinal(Cancel) == CANCEL && Ordinal(Escape) == ESCAPE
  {
  }

  /**
   * `bytes(control1, control2)`: the header `{0, (byte) ordinal, control1,
   * control2}`. Decoding it gives back the constant and both controls.
   */
  function StatusBytes2(s: StatusType, control1: JByte, control2: JByte): (r: Bytes)
    ensures |r| == HEADER_LEN && r[PACKET_HEAD] == NULL
    ensures FromOrdinal(r[PACKET_STATUS]) == Some(s)
    ensures r[PACKET_CONTROL1] == control1 && r[PACKET_CONTROL2] == control2
  {
    FromOrdinalOrdinal(s);
    [NULL, ToByte(Ordinal(s)), control1, control2]
  }

  /** `bytes(control1)`: `bytes(control1, 0)`. */
  function StatusBytes1(s: StatusType, control1: JByte): (r: Bytes)
    ensures r == StatusBytes2(s, control1, NULL)
  {
    [NULL, ToByte(Ordinal(s)), control1, NULL]
  }

  /** `bytes()`: `bytes(0, 0)`. */
  function StatusBytes(s: StatusType): (r: Bytes)
    ensures r == StatusBytes2(s, NULL, NULL)
  {
    [NULL, ToByte(Ordinal(s)), NULL, NULL]
  }

  /**
   * `ACKNOWLEDGE.bytes(c)` and `NEG_ACKNOWLEDGE.bytes(c)`, the replies of the
   * state machine: status 6 or 21 and the confirmed status in control1.
   */
  lemma ReplyHeaders(c: JByte)
    ensures StatusBytes1(Acknowledge, c) == [NULL, ACKNOWLEDGE, c, NULL]
    ensures StatusBytes1(NegAcknowledge, c) == [NULL, NEG_ACKNOWLEDGE, c, NULL]
  {
  }

  // ---------------------------------------------------------------------
  // START_TEXT.bytes(data): the body length as a factor pair

  /**
   * The test that the factor search applies to i for a body of n bytes:
   * i is below the square root of n, divides n, and both factors fit a byte.
   */
  predicate Candidate(n: nat, i: int)
  {
    1 <= i && i * i < n && n % i == 0 && i <= BYTE_MAX && n / i <= BYTE_MAX
  }

  /** The search `for (i = start; i < sqrt(n); i++)`, stopping at the first candidate; (0, 0) if none. */
  function ControlSearch(n: nat, i: nat): (c: (JByte, JByte))
    requires i >= 1
    ensures c.0 >= 0 && c.1 >= 0
    decreases n - i
  {
    if i * i >= n then (0, 0)
    else if n % i == 0 && i <= BYTE_MAX && n / i <= BYTE_MAX then (i, n / i)
    else MulAtLeast(i, i); ControlSearch(n, i + 1)
  }

  /** The control bytes `START_TEXT.bytes` writes for a body of n bytes. */
  function StartTextControls(n: nat): (c: (JByte, JByte))
    ensures c.0 >= 0 && c.1 >= 0
    ensures c.0 != 0 ==> (c.0 as int) * (c.1 as int) == n
    ensures c.0 == 0 ==> c.1 == 0 && n > BYTE_MAX
  {
    ControlSearchFound(n, 1);
    ControlSearchNone(n, 1);
    if n > BYTE_MAX then ControlSearch(n, 1) else (1, n)
  }

  /**
   * What the search finds is the first candidate at or after i, and finding
   * nothing means there is no candidate at or after i.
   */
  lemma ControlSearchFindsFirst(n: nat, i: nat)
    requires i >= 1
    ensures var c := ControlSearch(n, i);
      && (c.0 != 0 ==> Candidate(n, c.0) && c.1 == n / c.0 && (c.0 as int) * (c.1 as int) == n && i <= c.0)
      && (c.0 != 0 ==> forall j :: i <= j < c.0 ==> !Candidate(n, j))
      && (c.0 == 0 ==> c.1 == 0 && forall j :: i <= j ==> !Candidate(n, j))
  {
    ControlSearchFound(n, i);
    ControlSearchFirst(n, i);
    ControlSearchNone(n, i);
  }

  /** A pair the search returns is a candidate and its quotient. */
  lemma {:induction false} ControlSearchFound(n: nat, i: nat)
    requires i >= 1
    ensures var c := ControlSearch(n, i);
      c.0 != 0 ==> Candidate(n, c.0) && c.1 == n / c.0 && (c.0 as int) * (c.1 as int) == n && i <= c.0
    decreases n - i
  {
    if i * i >= n {
      NoCandidateFrom(n, i);
    } else if n % i == 0 && i <= BYTE_MAX && n / i <= BYTE_MAX {
      FoundCandidate(n, i);
    } else {
      MulAtLeast(i, i);
      ControlSearchFound(n, i + 1);
      SkipsFound(n, i);
    }
  }

  lemma SkipsFound(n: nat, i: nat)
    requires 1 <= i && i * i < n && !(n % i == 0 && i <= BYTE_MAX && n / i <= BYTE_MAX)
    requires var c := ControlSearch(n, i + 1);
      c.0 != 0 ==> Candidate(n, c.0) && c.1 == n / c.0 && (c.0 as int) * (c.1 as int) == n && i + 1 <= c.0
    ensures var c := ControlSearch(n, i);
      c.0 != 0 ==> Candidate(n, c.0) && c.1 == n / c.0 && (c.0 as int) * (c.1 as int) == n && i <= c.0
  {
    SearchSkips(n, i);
  }

  /** No candidate lies between where the search starts and what it returns. */
  lemma {:induction false} ControlSearchFirst(n: nat, i: nat)
    requires i >= 1
    ensures var c := ControlSearch(n, i);
      c.0 != 0 ==> forall j :: i <= j < c.0 ==> !Candidate(n, j)
    decreases n - i
  {
    if i * i >= n {
      NoCandidateFrom(n, i);
    } else if n % i == 0 && i <= BYTE_MAX && n / i <= BYTE_MAX {
      FoundCandidate(n, i);
    } else {
      MulAtLeast(i, i);
      ControlSearchFirst(n, i + 1);
      SkipsFirst(n, i);
    }
  }

  lemma SkipsFirst(n: nat, i: nat)
    requires 1 <= i && i * i < n && !(n % i == 0 && i <= BYTE_MAX && n / i <= BYTE_MAX)
    requires var c := ControlSearch(n, i + 1); c.0 != 0 ==> forall j :: i + 1 <= j < c.0 ==> !Candidate(n, j)
    ensures var c := ControlSearch(n, i); c.0 != 0 ==> forall j :: i <= j < c.0 ==> !Candidate(n, j)
  {
    SearchSkips(n, i);
  }

  /** When the search finds nothing, nothing from where it starts is a candidate. */
  lemma {:induction false} ControlSearchNone(n: nat, i: nat)
    requires i >= 1
    ensures var c := ControlSearch(n, i);
      c.0 == 0 ==> c.1 == 0 && forall j :: i <= j ==> !Candidate(n, j)
    decreases n - i
  {
    if i * i >= n {
      NoCandidateFrom(n, i);
    } else if n % i == 0 && i <= BYTE_MAX && n / i <= BYTE_MAX {
      FoundCandidate(n, i);
    } else {
      MulAtLeast(i, i);
      ControlSearchNone(n, i + 1);
      SkipsNone(n, i);
    }
  }

  lemma SkipsNone(n: nat, i: nat)
    requires 1 <= i && i * i < n && !(n % i == 0 && i <= BYTE_MAX && n / i <= BYTE_MAX)
    requires var c := ControlSearch(n, i + 1); c.0 == 0 ==> c.1 == 0 && forall j :: i + 1 <= j ==> !Candidate(n, j)
    ensures var c := ControlSearch(n, i); c.0 == 0 ==> c.1 == 0 && forall j :: i <= j ==> !Candidate(n, j)
  {
    SearchSkips(n, i);
  }

  /** An i below the square root that fails the tests is no candidate, and the search moves on. */
  lemma SearchSkips(n: nat, i: nat)
    requires 1 <= i && i * i < n && !(n % i == 0 && i <= BYTE_MAX && n / i <= BYTE_MAX)
    ensures ControlSearch(n, i) == ControlSearch(n, i + 1) && !Candidate(n, i)
  {
  }

  /** Past the square root nothing is a candidate. */
  lemma NoCandidateFrom(n: nat, i: nat)
    requires 1 <= i && i * i >= n
    ensures ControlSearch(n, i) == (0, 0)
    ensures forall j :: i <= j ==> !Candidate(n, j)
  {
    forall j | i <= j
      ensures !Candidate(n, j)
    {
      SquareMonotone(i, j);
    }
  }

  /** An i that passes the loop's tests is a candidate, and the pair's product is n. */
  lemma FoundCandidate(n: nat, i: nat)
    requires 1 <= i && i * i < n && n % i == 0 && i <= BYTE_MAX && n / i <= BYTE_MAX
    ensures ControlSearch(n, i) == (i, n / i)
    ensures Candidate(n, i) && i * (n / i) == n
    ensures var c := ControlSearch(n, i);
      Candidate(n, c.0) && c.1 == n / c.0 && (c.0 as int) * (c.1 as int) == n && i <= c.0
  {
  }

  /**
   * For a body longer than 127 bytes the controls are either the smallest
   * candidate i with `n / i`, whose product is the length and both at most
   * 127, or (0, 0) when there is no candidate at all.
   */
  lemma StartTextControlsLong(n: nat)
    requires n > BYTE_MAX
    ensures var c := StartTextControls(n);
      && (c.0 != 0 ==> Candidate(n, c.0) && c.1 == n / c.0 && (c.0 as int) * (c.1 as int) == n)
      && (c.0 != 0 ==> 1 <= c.0 <= BYTE_MAX && 1 <= c.1 <= BYTE_MAX)
      && (c.0 != 0 ==> forall j :: 1 <= j < c.0 ==> !Candidate(n, j))
      && (c.0 == 0 <==> forall j :: !Candidate(n, j))
      && (c.0 == 0 ==> c.1 == 0)
  {
    ControlSearchFindsFirst(n, 1);
    var c := StartTextControls(n);
    if c.0 != 0 {
      assert c.1 != 0;
    }
  }

  /** A body of more than 127 * 127 bytes cannot be described: the controls stay (0, 0). */
  lemma {:induction false} StartTextControlsTooLong(n: nat)
    requires n > BYTE_MAX * BYTE_MAX
    ensures StartTextControls(n) == (0, 0)
  {
    StartTextControlsLong(n);
  }

  /**
   * `START_TEXT.bytes(data)`: a fresh array of `HEADER_LEN + data.length`
   * bytes holding `{0, 2, control1, control2}` and the body. A body of at
   * most 127 bytes gets the controls (1, length); a longer one is searched for
   * a factor pair. The guard meant to reject a length with no factor pair
   * tests `ret[2] < 0`, which never holds, so no exception is ever thrown
   * and such a length silently gets (0, 0).
   */
  method StartTextBytes(data: Bytes) returns (r: Result<Bytes, Exception>)
    ensures r.Success?
    ensures |r.value| == HEADER_LEN + |data|
    ensures r.value[PACKET_HEAD] == NULL && r.value[PACKET_STATUS] == START_TEXT
    ensures (r.value[PACKET_CONTROL1], r.value[PACKET_CONTROL2]) == StartTextControls(|data|)
    ensures r.value[HEADER_LEN..] == data
  {
    var n := |data|;
    var ret := new JByte[HEADER_LEN + n](_ => 0);
    ret[0] := NULL;
    ret[1] := START_TEXT;
    if n > BYTE_MAX {
      ret[2], ret[3] := SearchControls(n);
      if ret[2] < 0 {
        return Failure(IllegalArgument);
      }
    } else {
      ret[2] := 1;
      ret[3] := n;
    }
    forall k | 0 <= k < n {
      ret[HEADER_LEN + k] := data[k];
    }
    r := Success(ret[..]);
  }

  /**
   * The loop of `START_TEXT.bytes` for a body of n bytes: try i from 1 while
   * `i < sqrt(n)`, and stop at the first pair that passes the tests; the
   * caller stores the pair in the control bytes, which stay 0 when the loop
   * finds nothing.
   */
  method SearchControls(n: nat) returns (control1: JByte, control2: JByte)
    ensures (control1, control2) == ControlSearch(n, 1)
  {
    control1, control2 := 0, 0;
    var i := 1;
    while i * i < n
      invariant 1 <= i
      invariant ControlSearch(n, i) == ControlSearch(n, 1)
      decreases n - i
    {
      if n % i == 0 {
        if i <= BYTE_MAX && n / i <= BYTE_MAX {
          FoundCandidate(n, i);
          control1, control2 := i, n / i;
          return;
        }
      }
      SearchSkips(n, i);
      MulAtLeast(i, i);
      i := i + 1;
    }
    NoCandidateFrom(n, i);
  }

  /** A 131-byte body (a prime) has no factor pair: the header says (0, 0), unknown length. */
  lemma StartTextPrimeFallsBack()
    ensures StartTextControls(131) == (0, 0)
  {
    StartTextControlsLong(131);
    assert Candidate(131, 1) == false;
  }

  /** 169 == 13 * 13 fits, but the strict `i < sqrt(n)` bound never tries 13: (0, 0). */
  lemma StartTextSquareFallsBack()
    ensures 13 * 13 == 169
    ensures StartTextControls(169) == (0, 0)
  {
  }

  /** The 600-byte body of a text frame is described as 5 * 120. */
  lemma StartTextSixHundred()
    ensures StartTextControls(600) == (5, 120)
  {
  }

  // ---------------------------------------------------------------------
  // The encoder as evidently intended: an explicit failure instead of (0, 0)

  /** a and b are byte-sized factors of n. */
  predicate IsFactorPair(n: nat, a: int, b: int)
  {
    1 <= a <= BYTE_MAX && 1 <= b <= BYTE_MAX && a * b == n
  }

  /** Search for a factor pair up to and including the square root. */
  function FactorPairFrom(n: nat, i: nat): Option<(JByte, JByte)>
    requires i >= 1
    decreases n - i
  {
    if i * i > n || n == 0 then None
    else if n % i == 0 && i <= BYTE_MAX && n / i <= BYTE_MAX then Some((i, n / i))
    else MulAtLeast(i, i); FactorPairFrom(n, i + 1)
  }

  datatype EncodeError = LengthNotRepresentable(length: nat)

  /**
   * START_TEXT encoding that fails explicitly when the length has no
   * byte-sized factor pair, trying divisors up to the square root inclusive.
   */
  function CheckedStartTextBytes(data: Bytes): (r: Result<Bytes, EncodeError>)
    ensures r.Success? ==> |r.value| == HEADER_LEN + |data| && r.value[HEADER_LEN..] == data
    ensures r.Success? ==> r.value[..2] == [NULL, START_TEXT]
    ensures r.Failure? ==> |data| > BYTE_MAX && r.error == LengthNotRepresentable(|data|)
  {
    var n := |data|;
    if n <= BYTE_MAX then Success([NULL, START_TEXT, 1, n] + data)
    else match FactorPairFrom(n, 1)
      case None => Failure(LengthNotRepresentable(n))
      case Some(c) => Success([NULL, START_TEXT, c.0, c.1] + data)
  }

  lemma {:induction false} FactorPairFromSound(n: nat, i: nat)
    requires i >= 1
    ensures FactorPairFrom(n, i).Some? ==> IsFactorPair(n, FactorPairFrom(n, i).value.0, FactorPairFrom(n, i).value.1)
    decreases n - i
  {
    if i * i > n || n == 0 {
    } else if n % i == 0 && i <= BYTE_MAX && n / i <= BYTE_MAX {
      assert n == i * (n / i) + n % i;
    } else {
      MulAtLeast(i, i);
      FactorPairFromSound(n, i + 1);
    }
  }

  lemma DivExact(a: nat, b: nat)
    requires a >= 1
    ensures (a * b) % a == 0 && (a * b) / a == b
  {
    DivModUnique(a * b, a, b, 0);
  }

  /** If the smaller factor m of a pair is at least i, the search from i finds some pair. */
  lemma {:induction false} FactorPairFromComplete(n: nat, i: nat, m: nat, b: nat)
    requires 1 <= i <= m <= b <= BYTE_MAX && m * b == n
    ensures FactorPairFrom(n, i).Some?
    decreases m - i
  {
    assert i * i <= m * m <= m * b;
    DivExact(m, b);
    if n % i == 0 && i <= BYTE_MAX && n / i <= BYTE_MAX {
    } else {
      assert i != m;
      FactorPairFromComplete(n, i + 1, m, b);
    }
  }

  /**
   * The intended encoder fails exactly when the length is over 127 and has no
   * byte-sized factor pair; otherwise control1 * control2 is the length, and
   * the header and body are laid out as `START_TEXT.bytes` does.
   */
  lemma CheckedStartTextBytesCorrect(data: Bytes)
    ensures var r := CheckedStartTextBytes(data);
      && (r.Failure? <==> |data| > BYTE_MAX && forall a, b :: !IsFactorPair(|data|, a, b))
      && (r.Success? ==>
            && |r.value| == HEADER_LEN + |data|
            && r.value[PACKET_HEAD] == NULL && r.value[PACKET_STATUS] == START_TEXT
            && 1 <= r.value[PACKET_CONTROL1]
            && (r.value[PACKET_CONTROL1] as int) * (r.value[PACKET_CONTROL2] as int) == |data|
            && r.value[HEADER_LEN..] == data)
  {
    var n := |data|;
    var r := CheckedStartTextBytes(data);
    if n > BYTE_MAX {
      FactorPairFromSound(n, 1);
      if r.Failure? {
        forall a, b | IsFactorPair(n, a, b)
          ensures false
        {
          if a <= b {
            FactorPairFromComplete(n, 1, a, b);
          } else {
            FactorPairFromComplete(n, 1, b, a);
          }
        }
      }
    }
  }

  /** Where the as-written encoder falls back to (0, 0) on 131 and 169, the intended one fails or finds 13 * 13. */
  lemma CheckedStartTextBytesOnFallbacks(d131: Bytes, d169: Bytes)
    requires |d131| == 131 && |d169| == 169
    ensures CheckedStartTextBytes(d131) == Failure(LengthNotRepresentable(131))
    ensures CheckedStartTextBytes(d169) == Success([NULL, START_TEXT, 13, 13] + d169)
  {
    CheckedStartTextBytesCorrect(d131);
  }
}
