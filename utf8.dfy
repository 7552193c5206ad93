/** The UTF-8 and code-point validator (`gcfg_is_valid_cp`,
    `gcfg_is_valid_utf8`): every input line and every code point inserted by a
    string escape must pass it. */
module Utf8 {
  import opened Base

  /** `gcfg_is_valid_cp`: not above U+10FFFF, not a surrogate, not one of the
      noncharacters U+FDD0..U+FDEF, and not a code point whose low 16 bits
      are FFFE or FFFF (the source's mask test, see `MaskTestIsLowBits`). */
  predicate IsValidCp(cp: nat)
  {
    if cp > 0x10FFFF then false
    else if (0xD800 <= cp <= 0xDBFF) || (0xDC00 <= cp <= 0xDFFF) then false
    else if 0xFDD0 <= cp <= 0xFDEF then false
    else if cp % 0x1_0000 >= 0xFFFE then false
    else true
  }

  /** `(cp & 0x0000FFFE) == 0xFFFE` holds exactly when the low 16 bits of
      `cp` are FFFE or FFFF. */
  lemma {:induction false} MaskTestIsLowBits(low: bv16)
    ensures ((low & 0xFFFE) == 0xFFFE) <==> low >= 0xFFFE
  {
  }

  /** The code points `gcfg_is_valid_cp` refuses below U+10FFFF: the
      surrogates, U+FDD0..U+FDEF and the last two code points of each of
      the seventeen planes. */
  lemma {:induction false} ValidCpExactly(cp: nat)
    ensures IsValidCp(cp) <==>
      cp <= 0x10FFFF && !(0xD800 <= cp <= 0xDFFF) && !(0xFDD0 <= cp <= 0xFDEF) &&
      !(exists plane :: 0 <= plane <= 0x10 && (cp == plane * 0x1_0000 + 0xFFFE || cp == plane * 0x1_0000 + 0xFFFF))
  {
    if cp <= 0x10FFFF && cp % 0x1_0000 >= 0xFFFE {
      var plane := cp / 0x1_0000;
      assert cp == plane * 0x1_0000 + cp % 0x1_0000;
      assert cp == plane * 0x1_0000 + 0xFFFE || cp == plane * 0x1_0000 + 0xFFFF;
    }
    if exists plane :: 0 <= plane <= 0x10 && (cp == plane * 0x1_0000 + 0xFFFE || cp == plane * 0x1_0000 + 0xFFFF) {
      var plane :| 0 <= plane <= 0x10 && (cp == plane * 0x1_0000 + 0xFFFE || cp == plane * 0x1_0000 + 0xFFFF);
      assert cp % 0x1_0000 >= 0xFFFE;
    }
  }

  /** The code points a line may contain: valid, not DEL, and no C0 control
      other than horizontal tab. */
  predicate Permitted(cp: int)
  {
    0 <= cp && IsValidCp(cp) && cp != 0x7F && (cp >= 0x20 || cp == 0x09)
  }

  /** The outcome of decoding one sequence: refused, or a code point and
      the number of bytes it occupies. */
  datatype Step = Reject | Accept(cp: nat, len: nat)

  // ----- Reference: the byte ranges of RFC 3629, section 4 -----

  predicate IsTail(b: nat) { 0x80 <= b <= 0xBF }

  /** The range RFC 3629 allows for the second byte of a sequence: the
      first continuation byte is narrowed after E0, ED, F0 and F4 so that
      over-long forms, surrogates and values above U+10FFFF have no
      encoding. */
  function SecondLow(b0: nat): nat
  {
    if b0 == 0xE0 then 0xA0 else if b0 == 0xF0 then 0x90 else 0x80
  }

  function SecondHigh(b0: nat): nat
  {
    if b0 == 0xED then 0x9F else if b0 == 0xF4 then 0x8F else 0xBF
  }

  /** `k` trailing bytes (UTF8-tail) start at `j`. */
  predicate TailsAt(s: seq<Byte>, j: nat, k: nat)
    decreases k
  {
    k == 0 || (j < |s| && IsTail(s[j] as nat) && TailsAt(s, j + 1, k - 1))
  }

  /** Length of the well-formed UTF-8 sequence starting at `i` according to
      the UTF8-1 .. UTF8-4 productions of section 4 of RFC 3629, or 0 when
      none of them matches. */
  function Rfc3629Length(s: seq<Byte>, i: nat): (n: nat)
    requires i < |s|
    ensures n <= 4 && i + n <= |s|
  {
    var b0 := s[i] as nat;
    var n := if b0 <= 0x7F then 1 else if 0xC2 <= b0 <= 0xDF then 2
      else if 0xE0 <= b0 <= 0xEF then 3 else if 0xF0 <= b0 <= 0xF4 then 4 else 0;
    if n <= 1 then n
    else if i + 1 < |s| && SecondLow(b0) <= s[i + 1] as nat <= SecondHigh(b0) && TailsAt(s, i + 2, n - 2) then
      TailsWithin(s, i + 2, n - 2); n
    else 0
  }

  lemma {:induction false} TailsWithin(s: seq<Byte>, j: nat, k: nat)
    requires TailsAt(s, j, k)
    ensures j + k <= |s| || k == 0
    decreases k
  {
    if k > 0 {
      TailsWithin(s, j + 1, k - 1);
    }
  }

  /** The code point a sequence of length `n` encodes (RFC 3629, section 3):
      the lead byte's marker bits removed, six bits per trailing byte. */
  function Rfc3629Value(s: seq<Byte>, i: nat, n: nat): int
    requires 1 <= n <= 4 && i + n <= |s|
  {
    if n == 1 then s[i] as int
    else if n == 2 then (s[i] as int - 0xC0) * 0x40 + (s[i + 1] as int - 0x80)
    else if n == 3 then
      (s[i] as int - 0xE0) * 0x1000 + (s[i + 1] as int - 0x80) * 0x40 + (s[i + 2] as int - 0x80)
    else
      (s[i] as int - 0xF0) * 0x4_0000 + (s[i + 1] as int - 0x80) * 0x1000 +
      (s[i + 2] as int - 0x80) * 0x40 + (s[i + 3] as int - 0x80)
  }

  /** One step of the reference: the permitted code point at `i` and the
      length of its encoding. */
  function RfcStep(s: seq<Byte>, i: nat): (r: Step)
    requires i < |s|
    ensures r.Accept? ==> 1 <= r.len && i + r.len <= |s|
  {
    var n := Rfc3629Length(s, i);
    if n == 0 then Reject
    else
      var cp := Rfc3629Value(s, i, n);
      if Permitted(cp) then Accept(cp, n) else Reject
  }

  /** The bytes from `i` on are well-formed UTF-8 of permitted code points. */
  predicate ValidFrom(s: seq<Byte>, i: nat)
    decreases |s| - i
  {
    if i >= |s| then true
    else match RfcStep(s, i)
      case Reject => false
      case Accept(_, n) => ValidFrom(s, i + n)
  }

  predicate Utf8Valid(s: seq<Byte>)
  {
    ValidFrom(s, 0)
  }

  // ----- The lookup tables of is_valid_utf8.c -----

  const MIN_VAL_BY_COUNT: seq<nat> :=
    [0xFFFFFFFF, 0x00000020, 0x00000080, 0x00000800, 0x00010000, 0x00200000, 0x04000000]

  const MASK_BY_COUNT: seq<nat> := [0xFF, 0xFF, 0x1F, 0x0F, 0x07, 0x03]

  /** `seq_length`, indexed by the top six bits of a lead byte. */
  const SEQ_LENGTH: seq<nat> :=
    [1, 1, 1, 1, 1, 1, 1, 1, 1, 1, 1, 1, 1, 1, 1, 1] +
    [1, 1, 1, 1, 1, 1, 1, 1, 1, 1, 1, 1, 1, 1, 1, 1] +
    [0, 0, 0, 0, 0, 0, 0, 0, 0, 0, 0, 0, 0, 0, 0, 0] +
    [2, 2, 2, 2, 2, 2, 2, 2, 3, 3, 3, 3, 4, 4, 5, 0]

  /** The sequence length the table gives a lead byte (`(x >> 2) & 0x3F`
      is `x / 4` for a byte). */
  function LeadCount(x: nat): (count: nat)
    requires x < 0x100
    ensures count == if x < 0x80 then 1 else if x < 0xC0 then 0 else if x < 0xE0 then 2
      else if x < 0xF0 then 3 else if x < 0xF8 then 4 else if x < 0xFC then 5 else 0
  {
    SEQ_LENGTH[x / 4]
  }

  /** `min_val_by_count[count]`: the smallest code point a sequence of that
      length may encode. */
  function MinVal(count: nat): (m: nat)
    requires count <= 5
    ensures m == if count == 0 then 0xFFFFFFFF else if count == 1 then 0x20 else if count == 2 then 0x80
      else if count == 3 then 0x800 else if count == 4 then 0x10000 else 0x200000
  {
    MIN_VAL_BY_COUNT[count]
  }

  /** `x & mask_by_count[count]` for the lead byte's own count: the lead
      byte without its length marker. */
  function LeadBits(x: nat, count: nat): (b: nat)
    requires x < 0x100 && count == LeadCount(x)
    ensures b == if x < 0xC0 then x else if x < 0xE0 then x - 0xC0 else if x < 0xF0 then x - 0xE0
      else if x < 0xF8 then x - 0xF0 else if x < 0xFC then x - 0xF8 else x
  {
    LeadMask(x);
    x % (MASK_BY_COUNT[count] + 1)
  }

  /** The mask of the lead byte's own count keeps the bits below its
      length marker. */
  lemma {:induction false} LeadMask(x: nat)
    requires x < 0x100
    ensures var m := MASK_BY_COUNT[LeadCount(x)] + 1;
      x % m == if x < 0xC0 then x else if x < 0xE0 then x - 0xC0 else if x < 0xF0 then x - 0xE0
        else if x < 0xF8 then x - 0xF0 else if x < 0xFC then x - 0xF8 else x
  {
    if x < 0xC0 {
      assert MASK_BY_COUNT[LeadCount(x)] + 1 == 0x100;
    } else if x < 0xE0 {
      assert MASK_BY_COUNT[LeadCount(x)] + 1 == 0x20;
      assert x == 6 * 0x20 + (x - 0xC0);
    } else if x < 0xF0 {
      assert MASK_BY_COUNT[LeadCount(x)] + 1 == 0x10;
      assert x == 14 * 0x10 + (x - 0xE0);
    } else if x < 0xF8 {
      assert MASK_BY_COUNT[LeadCount(x)] + 1 == 0x08;
      assert x == 30 * 0x08 + (x - 0xF0);
    } else if x < 0xFC {
      assert MASK_BY_COUNT[LeadCount(x)] + 1 == 0x04;
      assert x == 62 * 0x04 + (x - 0xF8);
    } else {
      assert MASK_BY_COUNT[LeadCount(x)] + 1 == 0x100;
    }
  }

  /** `(x & 0xC0) == 0x80`: a byte of the form 10xxxxxx. */
  predicate IsCont(x: nat) { 0x80 <= x <= 0xBF }

  /** The code point bits after shifting in `k` continuation bytes from `j`
      (`cp = (cp << 6) | (x & 0x3F)`), or None at the first byte that is not
      a continuation byte. */
  function Gather(s: seq<Byte>, j: nat, k: nat, acc: nat): Option<nat>
    requires j + k <= |s|
    decreases k
  {
    if k == 0 then Some(acc)
    else if !IsCont(s[j] as nat) then None
    else Gather(s, j + 1, k - 1, acc * 0x40 + (s[j] as nat - 0x80))
  }

  /** One iteration of the outer loop of `gcfg_is_valid_utf8`. The source
      exempts a decoded TAB from the minimum-value test whatever the
      sequence length (`tabExemptAtAnyLength`); the corrected validator
      exempts it only as a one-byte sequence. */
  function TableStep(s: seq<Byte>, i: nat, tabExemptAtAnyLength: bool): (r: Step)
    requires i < |s|
    ensures r.Accept? ==> 1 <= r.len && i + r.len <= |s|
  {
    match TableGather(s, i)
    case None => Reject
    case Some(cp) => Judge(cp, LeadCount(s[i] as nat), tabExemptAtAnyLength)
  }

  /** The code point bits of the sequence at `i`: the lead byte's payload
      followed by its continuation bytes, or None when the input ends early
      or a continuation byte is missing. */
  function TableGather(s: seq<Byte>, i: nat): Option<nat>
    requires i < |s|
  {
    var count := LeadCount(s[i] as nat);
    var bits := LeadBits(s[i] as nat, count);
    if count <= 1 then Some(bits)
    else if |s| - (i + 1) < count - 1 then None
    else Gather(s, i + 1, count - 1, bits)
  }

  /** The value checks applied to a gathered code point: the minimum for
      its length (against over-long forms), `gcfg_is_valid_cp`, and DEL. */
  function Judge(cp: nat, count: nat, tabExemptAtAnyLength: bool): (r: Step)
    requires count <= 5
    ensures r.Accept? ==> r == Accept(cp, count) && (count >= 1 || cp == 0x09)
  {
    if cp < MinVal(count) && !(cp == 0x09 && (tabExemptAtAnyLength || count == 1)) then Reject
    else if !IsValidCp(cp) || cp == 0x7F then Reject
    else Accept(cp, count)
  }

  // ----- The table agrees with RFC 3629, lead class by lead class -----

  lemma {:induction false} StepOneByte(s: seq<Byte>, i: nat)
    requires i < |s| && s[i] as nat < 0x80
    ensures TableStep(s, i, false) == RfcStep(s, i)
  {
    var x := s[i] as nat;
    assert LeadBits(x, 1) == x;
    assert Rfc3629Length(s, i) == 1 && Rfc3629Value(s, i, 1) == x;
    ValidCpExactly(x);
  }

  /** A continuation byte is a trailing byte of RFC 3629 and carries its
      low six bits. */
  lemma {:induction false} ContIsTail(b: nat)
    ensures IsCont(b) <==> IsTail(b)
    ensures IsTail(b) ==> b % 0x40 == b - 0x80
  {
  }

  /** `acc` followed by the six payload bits of each of `k` trailing bytes. */
  function TailsValue(s: seq<Byte>, j: nat, k: nat, acc: nat): int
    requires j + k <= |s| && 1 <= k <= 3
  {
    if k == 1 then
      acc * 0x40 + (s[j] as int - 0x80)
    else if k == 2 then
      acc * 0x1000 + (s[j] as int - 0x80) * 0x40 + (s[j + 1] as int - 0x80)
    else
      acc * 0x4_0000 + (s[j] as int - 0x80) * 0x1000 + (s[j + 1] as int - 0x80) * 0x40 +
      (s[j + 2] as int - 0x80)
  }

  /** Trailing bytes with continuation bits `t1 .. tk` gathered onto `acc`. */
  lemma {:induction false} GatherTails(s: seq<Byte>, j: nat, k: nat, acc: nat)
    requires j + k <= |s| && 1 <= k <= 3
    ensures (forall m :: j <= m < j + k ==> IsTail(s[m] as nat)) ==>
      Gather(s, j, k, acc) == Some(TailsValue(s, j, k, acc))
    ensures (exists m :: j <= m < j + k && !IsTail(s[m] as nat)) ==> Gather(s, j, k, acc) == None
  {
    ContIsTail(s[j] as nat);
    if k > 1 {
      ContIsTail(s[j + 1] as nat);
      if k > 2 {
        ContIsTail(s[j + 2] as nat);
      }
    }
  }

  lemma {:induction false} StepTwoBytes(s: seq<Byte>, i: nat)
    requires i < |s| && 0xC0 <= s[i] as nat < 0xE0
    ensures TableStep(s, i, false) == RfcStep(s, i)
  {
    var x := s[i] as nat;
    assert LeadBits(x, 2) == x - 0xC0;
    if i + 1 < |s| && IsTail(s[i + 1] as nat) {
      GatherTails(s, i + 1, 1, x - 0xC0);
      var cp := (x - 0xC0) * 0x40 + (s[i + 1] as nat - 0x80);
      if x >= 0xC2 {
        assert Rfc3629Length(s, i) == 2;
      } else {
        assert Rfc3629Length(s, i) == 0;
      }
    } else {
      assert Rfc3629Length(s, i) == 0;
      if i + 1 < |s| {
        GatherTails(s, i + 1, 1, x - 0xC0);
      }
    }
  }

  lemma {:induction false} StepThreeBytes(s: seq<Byte>, i: nat)
    requires i < |s| && 0xE0 <= s[i] as nat < 0xF0
    ensures TableStep(s, i, false) == RfcStep(s, i)
  {
    var x := s[i] as nat;
    assert LeadBits(x, 3) == x - 0xE0;
    if i + 2 < |s| && IsTail(s[i + 1] as nat) && IsTail(s[i + 2] as nat) {
      ThreeTails(s, i);
    } else {
      assert Rfc3629Length(s, i) == 0;
      if i + 2 < |s| {
        GatherTails(s, i + 1, 2, x - 0xE0);
      }
    }
  }

  lemma {:induction false} ThreeTails(s: seq<Byte>, i: nat)
    requires i + 2 < |s| && 0xE0 <= s[i] as nat < 0xF0
    requires IsTail(s[i + 1] as nat) && IsTail(s[i + 2] as nat)
    ensures TableStep(s, i, false) == RfcStep(s, i)
  {
    var x, y := s[i] as nat, s[i + 1] as nat;
    GatherTails(s, i + 1, 2, x - 0xE0);
    var cp := (x - 0xE0) * 0x1000 + (y - 0x80) * 0x40 + (s[i + 2] as nat - 0x80);
    assert TableGather(s, i) == Some(cp);
    assert TableStep(s, i, false) == Judge(cp, 3, false);
    if SecondLow(x) <= y <= SecondHigh(x) {
      assert TailsAt(s, i + 2, 1);
      assert Rfc3629Length(s, i) == 3;
      assert Rfc3629Value(s, i, 3) == cp;
    } else {
      assert Rfc3629Length(s, i) == 0;
    }
  }

  lemma {:induction false} StepFourBytes(s: seq<Byte>, i: nat)
    requires i < |s| && 0xF0 <= s[i] as nat < 0xF8
    ensures TableStep(s, i, false) == RfcStep(s, i)
  {
    var x := s[i] as nat;
    assert LeadBits(x, 4) == x - 0xF0;
    if i + 3 < |s| && IsTail(s[i + 1] as nat) && IsTail(s[i + 2] as nat) && IsTail(s[i + 3] as nat) {
      FourTails(s, i);
    } else {
      if i + 3 < |s| {
        GatherTails(s, i + 1, 3, x - 0xF0);
      }
      assert !TailsAt(s, i + 2, 2) || !IsTail(s[i + 1] as nat) || i + 3 >= |s|;
      assert Rfc3629Length(s, i) == 0;
    }
  }

  lemma {:induction false} FourTails(s: seq<Byte>, i: nat)
    requires i + 3 < |s| && 0xF0 <= s[i] as nat < 0xF8
    requires IsTail(s[i + 1] as nat) && IsTail(s[i + 2] as nat) && IsTail(s[i + 3] as nat)
    ensures TableStep(s, i, false) == RfcStep(s, i)
  {
    var x, y := s[i] as nat, s[i + 1] as nat;
    var cp := FourGather(s, i);
    if x <= 0xF4 && SecondLow(x) <= y <= SecondHigh(x) {
      assert TailsAt(s, i + 2, 2);
      assert Rfc3629Length(s, i) == 4;
      assert Rfc3629Value(s, i, 4) == cp;
    } else {
      FourRefused(s, i, cp);
    }
  }

  /** The table validator's reading of a four-byte sequence. */
  lemma {:induction false} FourGather(s: seq<Byte>, i: nat) returns (cp: nat)
    requires i + 3 < |s| && 0xF0 <= s[i] as nat < 0xF8
    requires IsTail(s[i + 1] as nat) && IsTail(s[i + 2] as nat) && IsTail(s[i + 3] as nat)
    ensures cp == (s[i] as nat - 0xF0) * 0x4_0000 + (s[i + 1] as nat - 0x80) * 0x1000 +
      (s[i + 2] as nat - 0x80) * 0x40 + (s[i + 3] as nat - 0x80)
    ensures TableStep(s, i, false) == Judge(cp, 4, false)
  {
    var x, y := s[i] as nat, s[i + 1] as nat;
    GatherTails(s, i + 1, 3, x - 0xF0);
    cp := (x - 0xF0) * 0x4_0000 + (y - 0x80) * 0x1000 +
      (s[i + 2] as nat - 0x80) * 0x40 + (s[i + 3] as nat - 0x80);
    assert TableGather(s, i) == Some(cp);
  }

  /** A four-byte sequence outside the ranges of RFC 3629 decodes to a
      code point outside U+10000..U+10FFFF. */
  lemma {:induction false} FourRefused(s: seq<Byte>, i: nat, cp: nat)
    requires i + 3 < |s| && 0xF0 <= s[i] as nat < 0xF8
    requires IsTail(s[i + 1] as nat) && IsTail(s[i + 2] as nat) && IsTail(s[i + 3] as nat)
    requires !(s[i] as nat <= 0xF4 && SecondLow(s[i] as nat) <= s[i + 1] as nat <= SecondHigh(s[i] as nat))
    requires cp == (s[i] as nat - 0xF0) * 0x4_0000 + (s[i + 1] as nat - 0x80) * 0x1000 +
      (s[i + 2] as nat - 0x80) * 0x40 + (s[i + 3] as nat - 0x80)
    ensures Rfc3629Length(s, i) == 0 && (cp < 0x1_0000 || cp > 0x10FFFF)
  {
  }

  lemma {:induction false} StepFiveBytes(s: seq<Byte>, i: nat)
    requires i < |s| && 0xF8 <= s[i] as nat < 0xFC
    ensures TableStep(s, i, false) == Reject == RfcStep(s, i)
  {
    var x := s[i] as nat;
    if i + 4 < |s| {
      var b := x % 0x04;
      var y := s[i + 1] as nat;
      ContIsTail(y);
      GatherTails(s, i + 2, 3, b * 0x40 + y % 0x40);
    }
  }

  /** The table-driven step (with the TAB exemption limited to one-byte
      sequences) accepts exactly the sequences RFC 3629 calls well-formed
      whose code point is permitted, and decodes the same code point. */
  lemma {:induction false} TableStepIsRfc(s: seq<Byte>, i: nat)
    requires i < |s|
    ensures TableStep(s, i, false) == RfcStep(s, i)
  {
    var x := s[i] as nat;
    if x < 0x80 {
      StepOneByte(s, i);
    } else if x < 0xC0 {
      assert LeadCount(x) == 0;
    } else if x < 0xE0 {
      StepTwoBytes(s, i);
    } else if x < 0xF0 {
      StepThreeBytes(s, i);
    } else if x < 0xF8 {
      StepFourBytes(s, i);
    } else if x < 0xFC {
      StepFiveBytes(s, i);
    } else {
      assert LeadCount(x) == 0;
    }
  }

  /** `gcfg_is_valid_utf8`. As written (`tabExemptAtAnyLength`) a TAB
      decoded from a sequence of any length passes the over-long test and
      the verdict is `ValidAsWrittenFrom`; with the exemption limited to
      one-byte sequences it accepts exactly the well-formed UTF-8 of
      permitted code points. */
  method IsValidUtf8(s: seq<Byte>, tabExemptAtAnyLength: bool) returns (ok: bool)
    ensures tabExemptAtAnyLength ==> ok == ValidAsWrittenFrom(s, 0)
    ensures !tabExemptAtAnyLength ==> ok == Utf8Valid(s)
  {
    var i := 0;
    while i < |s|
      invariant i <= |s|
      invariant Verdict(s, 0, tabExemptAtAnyLength) == Verdict(s, i, tabExemptAtAnyLength)
      decreases |s| - i
    {
      var step, next := NextSequence(s, i, tabExemptAtAnyLength);
      if step.Reject? {
        return false;
      }
      i := next;
    }
    return true;
  }

  /** Validity of the bytes from `i` on, as the source judges it
      (`tabExemptAtAnyLength`) or as RFC 3629 does. */
  predicate Verdict(s: seq<Byte>, i: nat, tabExemptAtAnyLength: bool)
  {
    if tabExemptAtAnyLength then ValidAsWrittenFrom(s, i) else ValidFrom(s, i)
  }

  /** One pass of the outer loop: a refused sequence makes the input
      invalid, an accepted one leaves the verdict to the bytes after it;
      without the flag this is judged against the RFC 3629 reference. */
  method NextSequence(s: seq<Byte>, start: nat, tabExemptAtAnyLength: bool) returns (step: Step, next: nat)
    requires start < |s|
    ensures step.Reject? ==> !Verdict(s, start, tabExemptAtAnyLength)
    ensures step.Accept? ==> start < next <= |s| &&
                             Verdict(s, start, tabExemptAtAnyLength) == Verdict(s, next, tabExemptAtAnyLength)
  {
    step, next := DecodeSequence(s, start, tabExemptAtAnyLength);
    StepVerdict(s, start, step, tabExemptAtAnyLength);
  }

  lemma StepVerdict(s: seq<Byte>, i: nat, step: Step, tabExemptAtAnyLength: bool)
    requires i < |s| && step == TableStep(s, i, tabExemptAtAnyLength)
    ensures step.Reject? ==> !Verdict(s, i, tabExemptAtAnyLength)
    ensures step.Accept? ==> i < i + step.len <= |s| &&
                             Verdict(s, i, tabExemptAtAnyLength) == Verdict(s, i + step.len, tabExemptAtAnyLength)
  {
    if tabExemptAtAnyLength {
      StepAsWritten(s, i, step);
    } else {
      StepValidity(s, i, step);
    }
  }

  /** The body of the outer loop: read the lead byte, shift in its
      continuation bytes, then apply the value checks. As written
      (`tabExemptAtAnyLength`) the over-long test lets a decoded TAB pass
      at every length, so C0 89 is accepted; the corrected test refuses
      it. */
  method DecodeSequence(s: seq<Byte>, start: nat, tabExemptAtAnyLength: bool) returns (step: Step, next: nat)
    requires start < |s|
    ensures step == TableStep(s, start, tabExemptAtAnyLength)
    ensures step.Accept? ==> next == start + step.len
  {
    var i := start;
    var x := s[i] as nat;
    i := i + 1;
    var count: nat := LeadCount(x);
    var cp: nat := LeadBits(x, count);
    if count > 1 {
      if |s| - i < count - 1 {
        assert TableGather(s, start) == None;
        return Reject, i;
      }
      var k := 1;
      while k < count
        invariant 1 <= k <= count && i == start + k
        invariant TableGather(s, start) == Gather(s, i, count - k, cp)
      {
        x := s[i] as nat;
        i := i + 1;
        if !IsCont(x) {
          return Reject, i;
        }
        cp := cp * 0x40 + x % 0x40;
        k := k + 1;
      }
    }
    assert TableGather(s, start) == Some(cp);
    if cp < MinVal(count) && !((tabExemptAtAnyLength || count == 1) && cp == 0x09) {
      return Reject, i;
    }
    if !IsValidCp(cp) || cp == 0x7F {
      return Reject, i;
    }
    return Accept(cp, count), i;
  }

  /** What one table step says about validity under RFC 3629. */
  lemma {:induction false} StepValidity(s: seq<Byte>, i: nat, step: Step)
    requires i < |s| && step == TableStep(s, i, false)
    ensures step.Reject? ==> !ValidFrom(s, i)
    ensures step.Accept? ==> i + step.len <= |s| && ValidFrom(s, i) == ValidFrom(s, i + step.len)
  {
    TableStepIsRfc(s, i);
    if step.Reject? {
      RejectedByTable(s, i);
    } else {
      AcceptedByTable(s, i);
    }
  }

  /** A sequence the table refuses makes the rest of the input invalid. */
  lemma {:induction false} RejectedByTable(s: seq<Byte>, i: nat)
    requires i < |s| && TableStep(s, i, false).Reject?
    ensures !ValidFrom(s, i)
  {
    TableStepIsRfc(s, i);
  }

  /** After a sequence the table accepts, validity is that of the rest. */
  lemma {:induction false} AcceptedByTable(s: seq<Byte>, i: nat)
    requires i < |s| && TableStep(s, i, false).Accept?
    ensures ValidFrom(s, i) == ValidFrom(s, i + TableStep(s, i, false).len)
  {
    TableStepIsRfc(s, i);
  }

  // ----- Properties -----

  /** Text made only of ASCII bytes is accepted exactly when every byte is a
      TAB or printable (0x20..0x7E): line feed, carriage return, backspace
      and DEL are refused. */
  lemma {:induction false} AsciiValid(s: seq<Byte>, i: nat)
    requires i <= |s|
    requires forall k :: i <= k < |s| ==> s[k] as nat < 0x80
    ensures ValidFrom(s, i) <==> forall k :: i <= k < |s| ==> s[k] == '\t' || ' ' <= s[k] <= '~'
    decreases |s| - i
  {
    if i < |s| {
      AsciiValid(s, i + 1);
    }
  }

  /** Bytes 0x80..0xBF (continuation bytes) and 0xFE, 0xFF can never start
      a sequence: the table gives them length 0, with or without the
      correction. */
  lemma {:induction false} StrayLeadRejected(s: seq<Byte>, i: nat, tabExemptAtAnyLength: bool)
    requires i < |s|
    requires 0x80 <= s[i] as nat <= 0xBF || 0xFE <= s[i] as nat
    ensures TableStep(s, i, tabExemptAtAnyLength) == Reject
    ensures !ValidFrom(s, i)
  {
    assert LeadCount(s[i] as nat) == 0;
  }

  /** Three of the refused samples of is_valid_utf8.c: an over-long
      space, DEL and a lone FF byte. */
  lemma {:induction false} RefusedSamples()
    ensures !Utf8Valid([0xC0 as char, 0xA0 as char])
    ensures !Utf8Valid([0x7F as char])
    ensures !Utf8Valid([0xFF as char])
  {
    StrayLeadRejected([0xFF as char], 0, false);
  }

  // ----- The source as written: a TAB decoded from any length passes -----

  predicate ValidAsWrittenFrom(s: seq<Byte>, i: nat)
    decreases |s| - i
  {
    if i >= |s| then true
    else match TableStep(s, i, true)
      case Reject => false
      case Accept(_, n) => ValidAsWrittenFrom(s, i + n)
  }

  /** One step of the validator as written: a refused sequence makes the
      input invalid, an accepted one leaves the verdict to the bytes after
      it. */
  lemma StepAsWritten(s: seq<Byte>, i: nat, step: Step)
    requires i < |s| && step == TableStep(s, i, true)
    ensures step.Reject? ==> !ValidAsWrittenFrom(s, i)
    ensures step.Accept? ==> ValidAsWrittenFrom(s, i) == ValidAsWrittenFrom(s, i + step.len)
  {
  }

  /** The two-byte over-long encoding of TAB, C0 89, passes the source's
      test (`cp < min_val_by_count[count] && cp != 0x09`), although section 3
      of RFC 3629 forbids over-long forms; the corrected validator refuses
      it. */
  lemma {:induction false} OverlongTabAcceptedAsWritten()
    ensures ValidAsWrittenFrom([0xC0 as char, 0x89 as char], 0)
    ensures !Utf8Valid([0xC0 as char, 0x89 as char])
  {
    var s: seq<Byte> := [0xC0 as char, 0x89 as char];
    assert LeadCount(0xC0) == 2;
    assert Gather(s, 1, 1, 0) == Some(9);
    assert TableStep(s, 0, true) == Accept(9, 2);
  }

  /** Where the correction makes a difference at all: a step accepted by
      the source but not by the corrected table decodes to TAB from more
      than one byte. */
  lemma {:induction false} AsWrittenDiffersOnlyOnOverlongTab(s: seq<Byte>, i: nat)
    requires i < |s|
    requires TableStep(s, i, true) != TableStep(s, i, false)
    ensures TableStep(s, i, true) == Accept(9, LeadCount(s[i] as nat))
    ensures LeadCount(s[i] as nat) >= 2
  {
  }

  /** The exemption only ever lets more through: whatever the corrected
      validator accepts, the source accepts too. */
  lemma {:induction false} ValidIsValidAsWritten(s: seq<Byte>, i: nat)
    requires ValidFrom(s, i)
    ensures ValidAsWrittenFrom(s, i)
    decreases |s| - i
  {
    if i < |s| {
      TableStepIsRfc(s, i);
      var step := TableStep(s, i, false);
      assert step.Accept?;
      FlagKeepsAccept(s, i);
      ValidIsValidAsWritten(s, i + step.len);
    }
  }

  /** The wider TAB exemption only adds acceptances: what the corrected
      test accepts, the test as written accepts the same way. */
  lemma FlagKeepsAccept(s: seq<Byte>, i: nat)
    requires i < |s| && TableStep(s, i, false).Accept?
    ensures TableStep(s, i, true) == TableStep(s, i, false)
  {
  }
}
