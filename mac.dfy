/** `gcfg_parse_mac_addr`: a 48-bit MAC address written as six two-digit
    hexadecimal groups separated by colons. */
module Mac {
  import opened Base
  import opened Values

  const TWO_24: nat := 0x100_0000

  /** Group `k` of a MAC address starting at `i`: two hexadecimal digits,
      preceded by a colon unless it is the first group. */
  predicate GroupAt(s: seq<Byte>, i: nat, k: nat)
  {
    (k > 0 ==> At(s, i + 3 * k - 1) == ':')
    && IsHexDigit(At(s, i + 3 * k)) && IsHexDigit(At(s, i + 3 * k + 1))
  }

  /** Six well-formed groups from `i` on. */
  predicate IsMacText(s: seq<Byte>, i: nat)
  {
    forall k :: 0 <= k < 6 ==> GroupAt(s, i, k)
  }

  /** The byte that group `k` spells (zero where there is no group). */
  function GroupByte(s: seq<Byte>, i: nat, k: nat): (b: nat)
    ensures b < 0x100
  {
    var hi := Xdigit(At(s, i + 3 * k));
    var lo := Xdigit(At(s, i + 3 * k + 1));
    if hi < 0 || lo < 0 then 0 else hi * 16 + lo
  }

  /** The meaning of `gcfg_parse_mac_addr`: six groups, the first three
      bytes forming the 24-bit vendor part and the last three the 24-bit
      device part, most significant first; the text is consumed up to the
      end of the last group. */
  function ParseMacSpec(s: seq<Byte>, i: nat): Res<Value>
  {
    if !IsMacText(s, i) then Fail
    else
      var vendor := (GroupByte(s, i, 0) * 0x100 + GroupByte(s, i, 1)) * 0x100 + GroupByte(s, i, 2);
      var device := (GroupByte(s, i, 3) * 0x100 + GroupByte(s, i, 4)) * 0x100 + GroupByte(s, i, 5);
      Ok(Value(TypeMac, MacAddr(vendor, device), 0, 0), i + 17)
  }

  /** The accumulator after the first `k` groups: their bytes, shifted in
      most significant first. */
  function Packed(s: seq<Byte>, i: nat, k: nat): nat
  {
    if k == 0 then 0 else Packed(s, i, k - 1) * 0x100 + GroupByte(s, i, k - 1)
  }

  /** `gcfg_parse_mac_addr`: the group loop shifting each byte into a 64-bit
      accumulator, then the two 24-bit halves cut out of it. The low eight
      bits are zero after the shift, so or-ing the digits in adds them. */
  method ParseMac(s: seq<Byte>, i: nat) returns (r: Res<Value>)
    ensures r == ParseMacSpec(s, i)
  {
    var p := i;
    var acc: nat := 0;
    for k := 0 to 6
      invariant p == (if k == 0 then i else i + 3 * k - 1)
      invariant forall j :: 0 <= j < k ==> GroupAt(s, i, j)
      invariant acc == Packed(s, i, k)
    {
      if k > 0 {
        if At(s, p) != ':' {
          assert !GroupAt(s, i, k);
          return Fail;
        }
        p := p + 1;
      }
      if Xdigit(At(s, p)) < 0 || Xdigit(At(s, p + 1)) < 0 {
        assert !GroupAt(s, i, k);
        return Fail;
      }
      acc := acc * 0x100 + Xdigit(At(s, p)) * 16 + Xdigit(At(s, p + 1));
      p := p + 2;
    }
    MacOfPacked(s, i, acc);
    return Ok(Value(TypeMac, MacAddr(acc / TWO_24 % TWO_24, acc % TWO_24), 0, 0), p);
  }

  /** The accumulator holds the vendor part above the device part. */
  lemma {:induction false} MacHalves(s: seq<Byte>, i: nat)
    ensures Packed(s, i, 6)
         == ((GroupByte(s, i, 0) * 0x100 + GroupByte(s, i, 1)) * 0x100 + GroupByte(s, i, 2)) * TWO_24
          + (GroupByte(s, i, 3) * 0x100 + GroupByte(s, i, 4)) * 0x100 + GroupByte(s, i, 5)
  {
    var hi := (GroupByte(s, i, 0) * 0x100 + GroupByte(s, i, 1)) * 0x100 + GroupByte(s, i, 2);
    assert Packed(s, i, 1) == GroupByte(s, i, 0);
    assert Packed(s, i, 2) == GroupByte(s, i, 0) * 0x100 + GroupByte(s, i, 1);
    assert Packed(s, i, 3) == hi;
    assert Packed(s, i, 4) == hi * 0x100 + GroupByte(s, i, 3);
    assert Packed(s, i, 5) == hi * 0x1_0000 + GroupByte(s, i, 3) * 0x100 + GroupByte(s, i, 4);
  }

  /** A 48-bit word cut into its two 24-bit halves. */
  lemma {:induction false} DivModSplit(v: nat, hi: nat, lo: nat)
    requires hi < TWO_24 && lo < TWO_24 && v == hi * TWO_24 + lo
    ensures v / TWO_24 % TWO_24 == hi && v % TWO_24 == lo
  {
  }

  /** After six groups, the halves cut out of the accumulator are the
      vendor and device parts the groups spell. */
  lemma {:induction false} MacOfPacked(s: seq<Byte>, i: nat, acc: nat)
    requires IsMacText(s, i) && acc == Packed(s, i, 6)
    ensures ParseMacSpec(s, i)
         == Ok(Value(TypeMac, MacAddr(acc / TWO_24 % TWO_24, acc % TWO_24), 0, 0), i + 17)
  {
    var hi := (GroupByte(s, i, 0) * 0x100 + GroupByte(s, i, 1)) * 0x100 + GroupByte(s, i, 2);
    var lo := (GroupByte(s, i, 3) * 0x100 + GroupByte(s, i, 4)) * 0x100 + GroupByte(s, i, 5);
    MacHalves(s, i);
    DivModSplit(acc, hi, lo);
  }

  /** The six bytes of an address, vendor part first, each most
      significant first. */
  function MacBytes(vendor: nat, device: nat): (bs: seq<nat>)
    ensures |bs| == 6
  {
    [vendor / 0x1_0000 % 0x100, vendor / 0x100 % 0x100, vendor % 0x100,
     device / 0x1_0000 % 0x100, device / 0x100 % 0x100, device % 0x100]
  }

  /** Character `j` of the canonical spelling of six bytes: lower-case
      digit pairs joined by colons. */
  function MacChar(bs: seq<nat>, j: nat): Byte
    requires |bs| == 6 && j < 17
  {
    var b := bs[j / 3] % 0x100;
    if j % 3 == 2 then ':' else if j % 3 == 0 then HexChar(b / 16) else HexChar(b % 16)
  }

  /** The canonical spelling of six bytes, such as `ba:d0:ca:fe:ba:be`. */
  function MacTextOf(bs: seq<nat>): (t: seq<Byte>)
    requires |bs| == 6
    ensures |t| == 17
  {
    seq(17, j requires 0 <= j < 17 => MacChar(bs, j))
  }

  /** The canonical spelling of a vendor and device pair. */
  function MacText(vendor: nat, device: nat): (t: seq<Byte>)
    ensures |t| == 17
  {
    MacTextOf(MacBytes(vendor, device))
  }

  /** A 24-bit number is its three bytes. */
  lemma {:induction false} ThreeBytes(v: nat, a: nat, b: nat, c: nat)
    requires v < TWO_24
    requires a == v / 0x1_0000 % 0x100 && b == v / 0x100 % 0x100 && c == v % 0x100
    ensures (a * 0x100 + b) * 0x100 + c == v
  {
  }

  /** A byte is its two digits. */
  lemma {:induction false} TwoDigits(b: nat)
    requires b < 0x100
    ensures Xdigit(HexChar(b / 16)) * 16 + Xdigit(HexChar(b % 16)) == b
  {
  }

  /** The characters of group `k` in a spelling. */
  lemma {:induction false} CharsOfGroup(bs: seq<nat>, k: nat)
    requires |bs| == 6 && k < 6
    ensures MacChar(bs, 3 * k) == HexChar(bs[k] % 0x100 / 16)
    ensures MacChar(bs, 3 * k + 1) == HexChar(bs[k] % 0x100 % 16)
    ensures k > 0 ==> MacChar(bs, 3 * k - 1) == ':'
  {
    assert (3 * k) / 3 == k && (3 * k) % 3 == 0;
    assert (3 * k + 1) / 3 == k && (3 * k + 1) % 3 == 1;
    if k > 0 {
      assert (3 * k - 1) % 3 == 2;
    }
  }

  /** Group `k` of the spelling of six bytes, at the start of a text,
      reads back as byte `k`. */
  lemma {:induction false} GroupOfText(bs: seq<nat>, rest: seq<Byte>, k: nat)
    requires |bs| == 6 && k < 6 && bs[k] < 0x100
    ensures GroupAt(MacTextOf(bs) + rest, 0, k)
    ensures GroupByte(MacTextOf(bs) + rest, 0, k) == bs[k]
  {
    var t := MacTextOf(bs);
    var s := t + rest;
    CharsOfGroup(bs, k);
    assert At(s, 3 * k) == t[3 * k] == MacChar(bs, 3 * k);
    assert At(s, 3 * k + 1) == t[3 * k + 1] == MacChar(bs, 3 * k + 1);
    if k > 0 {
      assert At(s, 3 * k - 1) == t[3 * k - 1] == MacChar(bs, 3 * k - 1);
    }
    GroupOfChars(s, k, bs[k]);
  }

  /** A group spelling byte `b` in two digits. */
  lemma {:induction false} GroupOfChars(s: seq<Byte>, k: nat, b: nat)
    requires b < 0x100
    requires At(s, 3 * k) == HexChar(b % 0x100 / 16) && At(s, 3 * k + 1) == HexChar(b % 0x100 % 16)
    requires k > 0 ==> At(s, 3 * k - 1) == ':'
    ensures GroupAt(s, 0, k) && GroupByte(s, 0, k) == b
  {
    TwoDigits(b);
  }

  /** The spelling of six bytes is read back as those bytes. */
  lemma {:induction false} ParseMacOfBytes(bs: seq<nat>, rest: seq<Byte>)
    requires |bs| == 6 && forall k :: 0 <= k < 6 ==> bs[k] < 0x100
    ensures ParseMacSpec(MacTextOf(bs) + rest, 0)
         == Ok(Value(TypeMac, MacAddr((bs[0] * 0x100 + bs[1]) * 0x100 + bs[2],
                                      (bs[3] * 0x100 + bs[4]) * 0x100 + bs[5]), 0, 0), 17)
  {
    var s := MacTextOf(bs) + rest;
    forall k | 0 <= k < 6
      ensures GroupAt(s, 0, k) && GroupByte(s, 0, k) == bs[k]
    {
      GroupOfText(bs, rest, k);
    }
    ParseMacOfGroups(s, 0, bs);
  }

  /** Six groups spelling six bytes are read as the vendor and device parts
      those bytes make up. */
  lemma {:induction false} ParseMacOfGroups(s: seq<Byte>, i: nat, bs: seq<nat>)
    requires |bs| == 6
    requires forall k :: 0 <= k < 6 ==> GroupAt(s, i, k) && GroupByte(s, i, k) == bs[k]
    ensures ParseMacSpec(s, i)
         == Ok(Value(TypeMac, MacAddr((bs[0] * 0x100 + bs[1]) * 0x100 + bs[2],
                                      (bs[3] * 0x100 + bs[4]) * 0x100 + bs[5]), 0, 0), i + 17)
  {
    assert GroupByte(s, i, 0) == bs[0] && GroupByte(s, i, 1) == bs[1] && GroupByte(s, i, 2) == bs[2];
    assert GroupByte(s, i, 3) == bs[3] && GroupByte(s, i, 4) == bs[4] && GroupByte(s, i, 5) == bs[5];
  }

  /** The six bytes of a pair of 24-bit parts are bytes, and make the
      parts up again. */
  lemma {:induction false} BytesOfPair(vendor: nat, device: nat)
    requires vendor < TWO_24 && device < TWO_24
    ensures var bs := MacBytes(vendor, device);
      (forall k :: 0 <= k < 6 ==> bs[k] < 0x100)
      && (bs[0] * 0x100 + bs[1]) * 0x100 + bs[2] == vendor
      && (bs[3] * 0x100 + bs[4]) * 0x100 + bs[5] == device
  {
    var bs := MacBytes(vendor, device);
    ThreeBytes(vendor, bs[0], bs[1], bs[2]);
    ThreeBytes(device, bs[3], bs[4], bs[5]);
  }

  /** Round trip: the canonical spelling of any 24-bit vendor and device
      pair, followed by anything, is read back as that pair, consuming the
      seventeen characters of the spelling. */
  lemma {:induction false} ParseMacOfText(vendor: nat, device: nat, rest: seq<Byte>)
    requires vendor < TWO_24 && device < TWO_24
    ensures ParseMacSpec(MacText(vendor, device) + rest, 0)
         == Ok(Value(TypeMac, MacAddr(vendor, device), 0, 0), 17)
  {
    BytesOfPair(vendor, device);
    ParseMacOfBytes(MacBytes(vendor, device), rest);
  }

  /** Both halves of an accepted address are 24-bit numbers, and exactly
      seventeen characters are consumed. */
  lemma {:induction false} ParseMacBounds(s: seq<Byte>, i: nat)
    requires ParseMacSpec(s, i).Ok?
    ensures var r := ParseMacSpec(s, i);
      r.value.data.vendor < TWO_24 && r.value.data.device < TWO_24
      && r.next == i + 17 && r.next <= |s|
  {
    assert GroupAt(s, i, 5);
  }

  /** Six groups one by one make an address text. */
  lemma {:induction false} SixGroups(s: seq<Byte>, i: nat)
    requires GroupAt(s, i, 0) && GroupAt(s, i, 1) && GroupAt(s, i, 2)
    requires GroupAt(s, i, 3) && GroupAt(s, i, 4) && GroupAt(s, i, 5)
    ensures IsMacText(s, i)
  {
  }

  /** The vendor groups of the sample address, one byte each. */
  lemma {:induction false} SampleVendorGroups(s: seq<Byte>)
    requires s == "BA:D0:CA:FE:BA:BE"
    ensures GroupAt(s, 0, 0) && GroupAt(s, 0, 1) && GroupAt(s, 0, 2)
    ensures GroupByte(s, 0, 0) == 0xBA && GroupByte(s, 0, 1) == 0xD0 && GroupByte(s, 0, 2) == 0xCA
  {
  }

  /** The device groups of the sample address, one byte each. */
  lemma {:induction false} SampleDeviceGroups(s: seq<Byte>)
    requires s == "BA:D0:CA:FE:BA:BE"
    ensures GroupAt(s, 0, 3) && GroupAt(s, 0, 4) && GroupAt(s, 0, 5)
    ensures GroupByte(s, 0, 3) == 0xFE && GroupByte(s, 0, 4) == 0xBA && GroupByte(s, 0, 5) == 0xBE
  {
  }

  /** Sample address: the groups of "BA:D0:CA:FE:BA:BE" split into vendor
      BAD0CA and device FEBABE, in either letter case. */
  lemma {:induction false} ParseMacSample()
    ensures ParseMacSpec("BA:D0:CA:FE:BA:BE", 0)
         == Ok(Value(TypeMac, MacAddr(0xBAD0CA, 0xFEBABE), 0, 0), 17)
  {
    var s: seq<Byte> := "BA:D0:CA:FE:BA:BE";
    SampleVendorGroups(s);
    SampleDeviceGroups(s);
    SixGroups(s, 0);
  }

  /** Refused addresses: a trailing colon with the sixth group missing, a
      text ending after five groups, and groups of a single digit. */
  lemma {:induction false} ParseMacRefusals()
    ensures ParseMacSpec("DE:AD:BE:EF:00:", 0) == Fail
    ensures ParseMacSpec("DE:AD:BE:EF:00", 0) == Fail
    ensures ParseMacSpec("8:BA:D:F0:D:0", 0) == Fail
  {
    assert !GroupAt("DE:AD:BE:EF:00:", 0, 5);
    assert !GroupAt("DE:AD:BE:EF:00", 0, 5);
    assert !GroupAt("8:BA:D:F0:D:0", 0, 0);
  }
}
