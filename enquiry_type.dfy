/** The enquiry sub-types carried in control1 of an ENQUIRY frame, and their header builders. */
module EnquiryTypes {
  import opened Java
  import opened Results
  import opened Packet

  datatype EnquiryType = Normal | Return | Time | ReturnTime

  function Ordinal(e: EnquiryType): (r: nat)
    ensures r < 4
  {
    match e
    case Normal => 0
    case Return => 1
    case Time => 2
    case ReturnTime => 3
  }

  /** `fromOrdinal(i)`: `values()[i]`, None where Java throws ArrayIndexOutOfBoundsException. */
  function FromOrdinal(i: int): (r: Option<EnquiryType>)
    ensures r.Some? <==> 0 <= i < 4
    ensures r.Some? ==> Ordinal(r.value) == i
  {
    if i == 0 then Some(Normal)
    else if i == 1 then Some(Return)
    else if i == 2 then Some(Time)
    else if i == 3 then Some(ReturnTime)
    else None
  }

  /** Each sub-type's ordinal is the enquiry code of the same name. */
  lemma OrdinalsAreEnquiryCodes()
    ensures Ordinal(Normal) == NORMAL && Ordinal(Return) == RETURN
    ensures Ordinal(Time) == TIME && Ordinal(ReturnTime) == RETURN_TIME
    ensures forall e :: FromOrdinal(Ordinal(e)) == Some(e)
  {
  }

  /** `bytes(control2)`: `{0, ENQUIRY, ordinal, control2}`, which decodes back to the sub-type. */
  function EnquiryBytes1(e: EnquiryType, control2: JByte): (r: Bytes)
    ensures |r| == HEADER_LEN && r[PACKET_HEAD] == NULL && r[PACKET_STATUS] == ENQUIRY
    ensures FromOrdinal(r[PACKET_CONTROL1]) == Some(e) && r[PACKET_CONTROL2] == control2
  {
    [NULL, ENQUIRY, Ordinal(e), control2]
  }

  /** `bytes()`: `bytes(0)`. */
  function EnquiryBytes(e: EnquiryType): (r: Bytes)
    ensures r == EnquiryBytes1(e, NULL)
  {
    [NULL, ENQUIRY, Ordinal(e), NULL]
  }
}
