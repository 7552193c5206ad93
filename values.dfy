/** The tagged value record the decoders fill in and the keyword callbacks
    receive (`gcfg_value_t`), with its type codes and flag bits. */
module Values {
  import opened Base

  /** The argument/value type codes, in the order of their numbering. */
  datatype ValueType =
    | TypeNone | TypeIpv4 | TypeIpv6 | TypeMac | TypeBandwidth | TypeSize
    | TypeEnum | TypeBoolean | TypeString | TypeNumber | TypePercentage
    | TypeVec2 | TypeVec3 | TypeVec4 | TypeUri
  {
    /** The numeric code stored in the record's `type` byte and in a
        keyword's `arg` word. */
    function Code(): nat
    {
      match this
      case TypeNone => 0
      case TypeIpv4 => 1
      case TypeIpv6 => 2
      case TypeMac => 3
      case TypeBandwidth => 4
      case TypeSize => 5
      case TypeEnum => 6
      case TypeBoolean => 7
      case TypeString => 8
      case TypeNumber => 9
      case TypePercentage => 10
      case TypeVec2 => 11
      case TypeVec3 => 12
      case TypeVec4 => 13
      case TypeUri => 14
    }
  }

  /** The type a numeric code stands for; codes past the last one name no
      type. */
  function TypeOfCode(c: nat): (t: Option<ValueType>)
    ensures t.Some? <==> c <= 14
    ensures t.Some? ==> t.value.Code() == c
  {
    if c == 0 then Some(TypeNone)
    else if c == 1 then Some(TypeIpv4)
    else if c == 2 then Some(TypeIpv6)
    else if c == 3 then Some(TypeMac)
    else if c == 4 then Some(TypeBandwidth)
    else if c == 5 then Some(TypeSize)
    else if c == 6 then Some(TypeEnum)
    else if c == 7 then Some(TypeBoolean)
    else if c == 8 then Some(TypeString)
    else if c == 9 then Some(TypeNumber)
    else if c == 10 then Some(TypePercentage)
    else if c == 11 then Some(TypeVec2)
    else if c == 12 then Some(TypeVec3)
    else if c == 13 then Some(TypeVec4)
    else if c == 14 then Some(TypeUri)
    else None
  }

  /** Codes and types are in one-to-one correspondence. */
  lemma {:induction false} CodeRoundTrip(t: ValueType)
    ensures t.Code() <= 14 && TypeOfCode(t.Code()) == Some(t)
  {
  }

  /** Flag bit of an address value: a `/mask` was given. */
  const HAVE_MASK: nat := 1

  /** Flag bits of a URI value. */
  const URI_HAS_PORT: nat := 1
  const URI_HOST_IPV4: nat := 2
  const URI_HOST_IPV6: nat := 4
  const URI_HOST_NAME: nat := 8

  /** An exact decimal number: `mantissa * 10^exponent`. */
  datatype Number = Number(mantissa: int, exponent: int)

  /** The components of a URI, each absent (a NULL pointer) or the string
      it designates, and the port. */
  datatype UriParts = UriParts(
    scheme: Option<seq<Byte>>, userinfo: Option<seq<Byte>>,
    host: Option<seq<Byte>>, path: Option<seq<Byte>>,
    query: Option<seq<Byte>>, fragment: Option<seq<Byte>>, port: nat)

  const NO_URI_PARTS := UriParts(None, None, None, None, None, None, 0)

  /** The payload union; which member is meaningful follows from the
      record's type. */
  datatype Data =
    | NoData
    | Ipv4Addr(ipv4: nat)
    | Ipv6Addr(ipv6: seq<nat>)
    | MacAddr(vendor: nat, device: nat)
    | BitRate(bandwidth: nat)
    | ByteCount(size: nat)
    | EnumValue(enumValue: int)
    | Truth(boolean: bool)
    | Text(text: seq<Byte>)
    | Numbers(number: seq<Number>)
    | UriData(uri: UriParts)

  /** The record: payload, flag bits, prefix length and type. */
  datatype Value = Value(vtype: ValueType, data: Data, flags: nat, cidrMask: nat)

  /** The record as `memset` leaves it: every field zero. */
  const ZEROED := Value(TypeNone, NoData, 0, 0)

  const ZERO_NUMBERS: seq<Number> := [Number(0, 0), Number(0, 0), Number(0, 0), Number(0, 0)]

  /** The four number slots of a record; a record holding anything else reads
      as four zero slots, as a zeroed union does. */
  function NumberSlots(v: Value): (r: seq<Number>)
    ensures |r| == 4
    ensures v.data.Numbers? && |v.data.number| == 4 ==> r == v.data.number
  {
    if v.data.Numbers? && |v.data.number| == 4 then v.data.number else ZERO_NUMBERS
  }
}
