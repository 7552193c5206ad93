# libgcfg in Dafny

libgcfg reads line-oriented configuration files. A caller describes its
grammar as a table of keywords. Each keyword has an argument type, a
`set_property` callback that receives the parsed value, an optional table
of child keywords that opens a `{ … }` block, and callbacks that finalise
a block or take its raw lines. The library fetches lines through a caller
callback. It checks that each line is valid UTF-8, matches the keyword at
the start, parses the argument into a `gcfg_value_t` record, and calls
back.

This project models that core:

- the value parsers: decimal numbers with a ceiling, signed fixed-point
  numbers with exponent and percent, sizes, bandwidths, booleans, enums,
  quoted strings with escapes, MAC, IPv4 and IPv6 addresses with
  prefixes, vectors of numbers, and URIs;
- the UTF-8 validator;
- the grammar engine of `parse_file.c`.

Every reader is modelled twice. A function over `seq<Byte>` states what
the reader means; a method written the way the C loop is written is
proved equal to that function. Lemmas then prove the properties of the
function: round trips from a canonical spelling, agreement with an
independent reference (RFC 3629 for UTF-8), bounds, and the refusals the
library's own test vectors list.

A line is a `seq<Byte>`. Reading past its end yields NUL, as a C string
does (`Base.At`). A reader returns `Fail` or `Ok(value, next)`, where
`next` is the position just after what it consumed, as the C functions
return `in` advanced past the value.

Where the C code does something its authors evidently did not intend,
the model keeps both forms (see "## Findings"). The as-written form sits
beside the corrected one, a lemma exhibits an input on which they
differ, and further lemmas state where they agree. The grammar engine
keeps two of them as written: its line check is `gcfg_is_valid_utf8` as
written, and `apply_arg` decodes strings without the digit cap. Likewise
`Uri.ParseUri` keeps the C behaviour of the scratch buffer it fills, and
`Uri.UriSpec` states the intended record beside it. Elsewhere the
corrected forms are used. The corrected `gcfg_dec_num` and
`gcfg_parse_ipv6` are proved to read exactly as the source does, for
every ceiling the library passes and for every IPv6 input. Numbers are
read with the fraction sum checked, which differs from the source only
where the source's sum wraps (`Number.ParseNumberAsWrittenAgrees`).

Files, one module each:

- `base.dfy`: bytes, C-string reading, digits, blank skipping.
- `values.dfy`: the value record of `gcfg.h` and its type codes.
- `words.dfy`: the table scan shared by booleans, enums and keywords.
- `dec_num.dfy`, `utf8.dfy`, `strings.dfy`, `number.dfy`, `vector.dfy`,
  `boolean.dfy`, `enum.dfy`, `size.dfy`, `mac.dfy`, `bandwidth.dfy`,
  `ipv4.dfy`, `ipv6.dfy` (with `ipv6_samples.dfy`), `uri.dfy` (with
  `uri_props.dfy` and `uri_samples.dfy`): one per parser.
- `engine.dfy` (with `engine_props.dfy`): the keyword table, the line
  source, `apply_arg`, `plain_listing`, `parse` and `gcfg_parse_file`.

## Model

A member marked *as written* models the C code exactly as it stands. Its
corrected partner is named in the same row or under "## Findings".

| member | source | states |
|---|---|---|
| Base.Xdigit | lib/util.h:47 | the value is at least 0 exactly for a hexadecimal digit, is always between -1 and 15, and is the digit's value for a decimal digit |
| Base.SkipSpace | lib/parse_file.c:11-16 | the loop stops at `SkipBlanks`: every byte stepped over is a space or tab, and the byte it stops on is neither |
| Base.SkipBlanksOver | lib/parse_file.c:11-16 | a run of blanks followed by a non-blank is skipped whole, landing just past the run |
| Base.CString | lib/parse_file.c:139 | what `strlen` sees of a buffer is its prefix before the first NUL: it holds no NUL, and a NUL follows it when it is shorter than the buffer |
| Base.StrLen | lib/parse_uri.c:246 | the `strlen` loop over an array counts exactly the bytes of `CString` from the offset on |
| Base.QuotientBound | lib/parse_size.c:45 | the overflow guard `v > m / f` with a floored quotient holds exactly when `v * f > m` |
| Values.TypeOfCode | include/gcfg.h:17-33 | the codes 0..14 name a type and no other code does; the type named has that code |
| Values.CodeRoundTrip | include/gcfg.h:17-33 | every value type has a code of at most 14 that maps back to it |
| Values.NumberSlots | include/gcfg.h:69-72 | a record has four number slots; a record holding four numbers yields exactly those |
| Words.FindToken | lib/parse_boolean.c:29-43 | the table scan shared by the boolean, enum and keyword readers returns `FirstToken`: the first entry whose word stands whole at the cursor, and none when no entry does |
| Words.FirstTokenIs | lib/parse_enum.c:16-24 | an entry that matches, with no earlier entry matching, is the one found |
| Words.FoundToken | lib/parse_enum.c:17-22 | the entry found is spelled out at the cursor and followed by a byte that ends a word |
| Words.TokenOfText | lib/parse_enum.c:19-22 | a word written out and followed by an ending byte stands whole at the start of the text |
| DecNum.GuardExact | lib/dec_num.c:30 | with unbounded integers the guard `out > (max - x) / 10` catches exactly the digit that would take the value past `max` |
| DecNum.DecNumber | lib/dec_num.c:13-49 | the C loop with its overflow guard corrected (partner of the as-written `DecNumAsWritten`) returns `DecNumSpec`: a leading digit is required, `0` followed by a digit is refused, digits accumulate while within `max` |
| DecNum.DecNumIsRunValue | lib/dec_num.c:13-49 | the loop's reading equals an independent one: the maximal digit run, without a leading zero, read as a decimal number that fails when it exceeds `max` |
| DecNum.CanonicalIsDecimal | lib/dec_num.c:22 | a digit run without a leading zero is the canonical decimal spelling of its own value |
| DecNum.DecNumOfDecimal | lib/dec_num.c:13-49 | round trip: the canonical spelling of `n`, followed by a non-digit, is read back as `n` exactly when `n <= max`, and consumed whole |
| DecNum.DecNumAccepts | lib/dec_num.c:13-49 | whatever is accepted is a canonical spelling of a value at most `max`, followed by a non-digit |
| DecNum.DecNumAtMost | lib/dec_num.c:30-31 | an accepted value never exceeds the ceiling |
| DecNum.CeilingIsTight | lib/dec_num.c:30-31 | the ceiling itself is accepted, and one more is refused |
| DecNum.AsWrittenAgreesFromNine | lib/dec_num.c:30 | for ceilings of 9 or more, the guard as compiled (64-bit `max - x`) equals the exact guard |
| DecNum.DecNumAsWrittenAgrees | lib/dec_num.c:13-49 | `DecNumAsWritten` (as written, with the 64-bit guard) reads exactly as the corrected reader for every ceiling from 9 to 2^64-1, which covers every caller in the library |
| DecNum.AsWrittenLetsSevenThrough | lib/dec_num.c:30 | *as written*: with ceiling 5, `DecNumAsWritten` accepts "7" because `max - x` wraps, while the corrected `DecNumSpec` refuses it |
| Utf8.MaskTestIsLowBits | lib/is_valid_utf8.c:47 | `(cp & 0xFFFE) == 0xFFFE` holds exactly when the low 16 bits are FFFE or FFFF |
| Utf8.ValidCpExactly | lib/is_valid_utf8.c:34-51 | `gcfg_is_valid_cp` accepts exactly the code points up to U+10FFFF that are not surrogates, not U+FDD0..U+FDEF, and not the last two code points of one of the 17 planes |
| Utf8.LeadCount | lib/is_valid_utf8.c:27-32 | the `seq_length` table gives 1 for ASCII, 0 for continuation bytes, 2..5 for the lead-byte ranges C0-DF, E0-EF, F0-F7 and F8-FB, and 0 for FC to FF |
| Utf8.MinVal | lib/is_valid_utf8.c:13-21 | `min_val_by_count` holds the smallest code point each sequence length may encode |
| Utf8.TableStepIsRfc | lib/is_valid_utf8.c:53-87 | one corrected step of the table validator accepts exactly the sequences RFC 3629 calls well-formed and whose code point is permitted, decoding the same code point |
| Utf8.IsValidUtf8 | lib/is_valid_utf8.c:53-87 | *as written* when `tabExemptAtAnyLength` is set: the validator accepts exactly what `ValidAsWrittenFrom` accepts; with the TAB exemption limited to one-byte sequences it accepts exactly the well-formed UTF-8 of permitted code points (`Utf8Valid`) |
| Utf8.NextSequence | lib/is_valid_utf8.c:60-86 | one pass of the outer loop, for the validator as written and for the RFC 3629 reference alike: a refused sequence makes the input invalid, and an accepted one leaves validity to the bytes after it |
| Utf8.DecodeSequence | lib/is_valid_utf8.c:60-86 | the loop body (lead byte, continuation bytes, value checks) computes the table step, as written or corrected as its flag says, and moves past the sequence |
| Utf8.AsciiValid | lib/is_valid_utf8.c:97-101 | ASCII text is valid exactly when each byte is a TAB or printable, so line feed, carriage return, backspace and DEL are refused |
| Utf8.StrayLeadRejected | lib/is_valid_utf8.c:27-32 | continuation bytes and FE, FF can never start a sequence, with or without the correction |
| Utf8.RefusedSamples | lib/is_valid_utf8.c:97-104 | the over-long space C0 A0, DEL and a lone FF are refused |
| Utf8.OverlongTabAcceptedAsWritten | lib/is_valid_utf8.c:79 | *as written*: `ValidAsWrittenFrom` accepts the over-long TAB C0 89, which the corrected validator refuses |
| Utf8.ValidIsValidAsWritten | lib/is_valid_utf8.c:53-87 | whatever the corrected validator accepts, the validator as written accepts too |
| Utf8.AsWrittenDiffersOnlyOnOverlongTab | lib/is_valid_utf8.c:79 | the source's step and the corrected step differ only where the source accepts a TAB encoded in two or more bytes |
| Strings.EncodeUtf8 | lib/parse_string.c:15-40 | `encode_utf8` writes one byte below U+0080, two below U+0800, three below U+10000 and four above |
| Strings.EncodeUtf8Decodes | lib/parse_string.c:15-40 | round trip with the RFC 3629 reference: the bytes written for a valid code point form one well-formed sequence that decodes back to it |
| Strings.Escaped | lib/parse_string.c:57-63 | exactly the letters `b t n r \ "` are single-letter escapes |
| Strings.EscapeLetter | lib/parse_string.c:57-63 | the inverse of `Escaped`: the six bytes that have an escape letter, and the letter decodes back to the byte |
| Strings.ElementAt | lib/parse_string.c:51-90 | one body element consumes at least as many bytes as it produces, and at least one, which is what lets the string be decoded in place |
| Strings.CodePointAt | lib/parse_string.c:64-82 | a code-point escape's digits yield at most three more bytes than they occupy |
| Strings.Scan | lib/parse_string.c:51-93 | the body produces fewer bytes than it reads and, when it closes, ends just past a closing quote |
| Strings.StringAt | lib/parse_string.c:42-93 | an accepted string starts and ends with a quote, and its decoded text is at least two bytes shorter than the span read |
| Strings.InPlace | lib/parse_string.c:42-93 | decoding into the line's own buffer leaves the buffer's length unchanged |
| Strings.HexDigits | lib/parse_string.c:69-75 | *as written* (intended meaning: at most six digits, `ParseStringSpec`): the code-point loop reads the whole hexadecimal run and accumulates its value modulo 2^32, as the `uint32_t` accumulator does |
| Strings.WrapShift | lib/parse_string.c:73 | shifting a digit into a value already reduced modulo 2^32 gives the same result as reducing afterwards |
| Strings.ReadElement | lib/parse_string.c:51-90 | one element read from the buffer is `ElementAt` as written, without the digit cap |
| Strings.ReadCodePoint | lib/parse_string.c:69-82 | the whole digit run, reduced modulo 2^32, is checked with `gcfg_is_valid_cp` and written out in UTF-8, as `CodePointAt` without the cap says |
| Strings.WriteBytes | lib/parse_string.c:81 | copying bytes into the buffer changes exactly the positions written |
| Strings.ParseString | lib/parse_string.c:42-110 | *as written* (intended meaning `ParseStringSpec`): decoding the string at `i` into the same buffer succeeds exactly when `ParseStringAsWritten` does, returns the position past the closing quote, and leaves the buffer as `InPlace` says |
| Strings.ReadBody | lib/parse_string.c:51-90 | the body loop stops at the closing quote or at a failing element, with everything decoded so far written in front of the unread line |
| Strings.QuoteRoundTrip | lib/parse_string.c:42-93 | round trip: NUL-free text, quoted and put between quotes, decodes back to itself just past the closing quote, with or without the digit cap |
| Strings.InPlaceReadsBack | lib/parse_string.c:92 | after decoding in place as written, the buffer read as a C string is the decoded text up to its first NUL (all of it when it has none), and the line after the string is untouched |
| Strings.CapAgrees | lib/parse_string.c:72-75 | the missing digit counter matters only for runs of seven digits or more |
| Strings.SevenDigits | lib/parse_string.c:72-75 | *as written*: `ParseStringAsWritten` reads all seven digits of `"\U+0000041"` and yields `A`; the corrected `ParseStringSpec` yields U+0004 then `1` |
| Strings.DecodedPlain | lib/parse_string.c:120-121 | test vectors, as written and with the cap: `""` decodes to nothing and `"foo"` to `foo` |
| Strings.DecodedEscapes | lib/parse_string.c:122-123 | test vectors, as written and with the cap: the escaped backslash and the escaped quote |
| Strings.RefusedVectors | lib/parse_string.c:118-125 | test vectors, as written and with the cap: no opening quote, no closing quote, and the unknown escape `\a` fail |
| Strings.CodePointVectors | lib/parse_string.c:127-128 | test vectors, as written and with the cap: `\U+0041` is `A` and `\U+00A5` is C2 A5 |
| Strings.RefusedPlaneZero | lib/parse_string.c:129-130 | test vectors, as written and with the cap: U+FFFF and U+FFFE are refused |
| Strings.RefusedPlaneOne | lib/parse_string.c:131-132 | test vectors, as written and with the cap: U+1FFFF and U+1FFFE are refused |
| Strings.RefusedPlaneSixteen | lib/parse_string.c:133-135 | test vectors, as written and with the cap: U+10FFFE, U+10FFFF and U+110000 are refused |
| Strings.RefusedValues | lib/is_valid_utf8.c:34-51 | the code points of those vectors are not valid |
| Number.Mantissa | lib/parse_number.c:20-21 | the signed mantissa is the magnitude, negated exactly when the sign flag is set |
| Number.StoreNumber | include/gcfg.h:69-72 | a reading stored in slot `index` puts its signed mantissa and exponent in that slot, sets the type to NUMBER or PERCENTAGE, and keeps the other slots, the flags and the mask |
| Number.FractionPart | lib/parse_number.c:30-47 | the fraction loop with its two guards, then `gcfg_dec_num` on the same digits and the sum, wrapping modulo 2^64 as written or checked as corrected, computes `FractionSpec` |
| Number.SuffixPart | lib/parse_number.c:49-79 | the closing `switch` (exponent, percent sign, or nothing) computes `ExponentSpec` |
| Number.ParseNumber | lib/parse_number.c:10-93 | *as written* with `wrap` set: `gcfg_parse_number` returns `ParseNumberAsWritten`; with the fraction sum checked it returns `ParseNumberSpec`: sign, integer part, fraction, suffix |
| Number.ShiftMeaning | lib/parse_number.c:32-40 | the fraction loop over `d` digits succeeds exactly when the magnitude stays below `2^64-1 / 10` before each step and the exponent stays an `int32`, and it then scales the magnitude by `10^d` and lowers the exponent by `d` |
| Number.ParseNumberOfText | lib/parse_number.c:10-93 | round trip: a sign, the canonical integer part, an optional `.` and canonical fraction digits, and an optional exponent or `%`, within the guards, read back as that sign, the magnitude both parts spell, the exponent the fraction and suffix give, and the percent flag, consuming the whole text |
| Number.ParseNumberAt | lib/parse_number.c:10-93 | the same round trip for a number written at the start of a longer text and ended by a character that continues no part of it |
| Number.PercentAt | lib/parse_number.c:70-76 | a `%` lowers the exponent by two and marks a percentage, or fails when that leaves the `int32` range |
| Number.ExponentPartOfText | lib/parse_number.c:50-69 | a written exponent (letter, optional sign, canonical magnitude of at most 2^31-1) moves the exponent by its signed magnitude and is consumed whole |
| Number.ParseNumberBounds | lib/parse_number.c:10-93 | whatever is accepted fits the record: the magnitude in 64 bits, the exponent in 32, and at least one character is read |
| Number.FractionWrapAgrees | lib/parse_number.c:46 | the wrapping and the checked fraction sum agree whenever the checked one is accepted, and the wrapping one refuses only what the checked one refuses |
| Number.ParseNumberAsWrittenAgrees | lib/parse_number.c:10-93 | `ParseNumberAsWritten` (as written, wrapping sum) reads the same as the corrected decoder whenever that one accepts, and fails only where it fails |
| Number.FractionSumWraps | lib/parse_number.c:46 | *as written*: `ParseNumberAsWritten` reads "184467440737095516.99" as 83 * 10^-2, while the corrected `ParseNumberSpec` refuses it |
| Number.FractionLeadingZeroRefused | lib/parse_number.c:42 | a fraction whose first digit is `0` followed by another digit fails, because `gcfg_dec_num` reads its digits and allows no leading zero |
| Number.ParseNumberRefusesLeadingZeroFraction | lib/parse_number.c:30-47 | a number whose integer part is followed by such a fraction is refused, by the corrected decoder and as written |
| Number.OneDotZeroFiveRefused | lib/parse_number.c:42 | "1.05" is not a number |
| Number.ParseNumberNeedsDigit | lib/parse_number.c:20-28 | without a digit after the optional sign nothing is read, by the corrected decoder and as written |
| Number.LoneSignsRefused | tests/parse_number.c:22-24 | the empty text, "+" and "-" are refused |
| Number.ExponentStopsAfterDigits | lib/parse_number.c:49-79 | after an exponent the decoder stops at the end of the exponent's digits and never marks a percentage |
| Number.PercentAfterExponentUnread | lib/parse_number.c:49-79 | "13e2%" reads as 13 * 10^2, not a percentage, and stops before the `%` |
| Number.ParseReadingShift | lib/parse_number.c:10-93 | the decoder reads only from its start on, so it gives the same result on any suffix that contains the start |
| Vector.ParseVector | lib/parse_vector.c:9-59 | the loop of `gcfg_parse_vector` returns `ParseVectorAsWritten` with `wrap` set and `ParseVectorSpec` without: `(`, `count` numbers separated by commas with blanks around them, `)` and trailing blanks, then the type for the count |
| Vector.ReadElement | lib/parse_vector.c:22-39 | one pass of the loop: the comma before every element but the first, blanks, the number into slot `k`, and blanks |
| Vector.VectorAsWrittenAgrees | lib/parse_vector.c:9-59 | wherever the vector with checked sums is accepted, the vector as written reads the same record |
| Vector.ElementsKeep | lib/parse_vector.c:21-40 | the element loop never moves backwards and changes only the slots it fills; the flags, the mask and the slots from `count` on are kept |
| Vector.ParseVectorShape | lib/parse_vector.c:42-58 | an accepted vector has the type its count calls for (VEC2, VEC3, VEC4, else NUMBER), ends on a non-blank past the `)`, and keeps the flags, the mask and the unused slots |
| Vector.VectorOfTexts | lib/parse_vector.c:9-59 | round trip for any element reader: one to four texts it reads whole, written as a vector with blanks after the `)`, are read back into the first slots, with the other slots, flags and mask unchanged |
| Vector.VectorOfTextsOtherCount | lib/parse_vector.c:21-45 | a vector with more or fewer elements than `count` is refused |
| Vector.ParseVectorOfText | lib/parse_vector.c:9-59 | the same round trip with `gcfg_parse_number` reading the elements |
| Vector.ParseVectorOfTextOtherCount | lib/parse_vector.c:21-45 | a vector of numbers is refused under any other count |
| Vector.ParseVectorSample | tests/parse_vector.c:29 | "(+1,-2,+3,-4)" with count 4 gives VEC4 holding 1, -2, 3, -4 at exponent zero |
| Vector.ParseVectorSampleRefusals | tests/parse_vector.c:33-34 | "(+1,-2,+3,-4)" with count 3 and "(+1,-2,+3)" with count 4 are refused |
| Vector.NoElements | lib/parse_vector.c:42-45 | with a count of zero the list must close at once |
| Vector.CommaMissing | lib/parse_vector.c:22-27 | a later element without its comma fails |
| Boolean.ParseBoolean | lib/parse_boolean.c:24-47 | the scan of the mapping table followed by the entry's value returns `ParseBooleanSpec`: the first table word standing whole at the cursor, its truth value, and the position just past it |
| Boolean.MappingValues | lib/parse_boolean.c:11-22 | a table word maps to a non-zero value exactly when it is `on`, `yes` or `true` |
| Boolean.ParseBooleanOfWord | lib/parse_boolean.c:24-47 | round trip: each of the six words, followed by a blank or the end, is read as its truth value, consuming exactly the word |
| Boolean.ParseBooleanAccepts | lib/parse_boolean.c:29-43 | whatever is accepted is a table word standing whole, and the result is true exactly when the word is a true word |
| Boolean.ParseBooleanRefuses | lib/parse_boolean.c:29-46 | a text at which no table word stands whole is refused |
| Boolean.ParseBooleanRefusals | lib/parse_boolean.c:32-36 | the words are case-sensitive and must stand whole: "On" and "onx" are refused |
| Enum.ParseEnum | lib/parse_enum.c:11-37 | the scan up to the sentinel, then the entry's value, returns `ParseEnumSpec`: the first entry whose name stands whole at the cursor, its value, and the position past the name |
| Enum.ParseEnumFirstMatch | lib/parse_enum.c:16-24 | an entry whose name stands whole, with no earlier entry doing so, is the one read, with its value, and its name is consumed |
| Enum.ParseEnumAccepts | lib/parse_enum.c:16-36 | conversely, what is read is some entry's name standing whole, with that entry's value, and no earlier entry stands there |
| Enum.ParseEnumRefuses | lib/parse_enum.c:26-30 | the text is refused exactly when no entry's name stands whole at the cursor |
| Enum.ParseEnumPrefixSample | lib/parse_enum.c:19-23 | names match only whole: with `foo` listed before `foobar`, "foobar" reads the second entry and "foo bar" the first |
| Enum.ParseEnumOrderSample | lib/parse_enum.c:16-24 | when two entries share a name, the earlier one wins |
| Size.ParseSize | lib/parse_size.c:9-55 | the number, the unit `switch`, the guard against the shifted-down maximum and the shift return `ParseSizeSpec`: the count times the unit, failing when that does not fit in 64 bits |
| Size.ParseSizeOfText | lib/parse_size.c:9-55 | round trip: a canonical count with an optional unit letter (`k m g t`, either case) is read as the count times 2^10, 2^20, 2^30 or 2^40 when that fits in 64 bits and refused otherwise, consuming the count and the letter |
| Size.ParseSizeLimit | lib/parse_size.c:45 | the guard is tight: for every unit the largest count accepted is 2^64-1 divided by the unit, and one more is refused |
| Size.ParseSizeSamples | lib/parse_size.c:19-50 | "4k" is 4096 bytes and "2G" is 2^31 bytes |
| Mac.ParseMac | lib/parse_mac_addr.c:9-39 | the group loop into a 64-bit accumulator and the two masked halves return `ParseMacSpec`: six colon-separated digit pairs, the first three bytes the vendor, the last three the device |
| Mac.MacOfPacked | lib/parse_mac_addr.c:23-30 | after six groups, the halves cut out of the accumulator are the vendor and device parts the groups spell |
| Mac.ParseMacOfBytes | lib/parse_mac_addr.c:16-30 | six bytes spelled as digit pairs joined by colons are read back as the vendor and device parts those bytes make up |
| Mac.ParseMacOfText | lib/parse_mac_addr.c:9-39 | round trip: the canonical spelling of any 24-bit vendor and device pair, followed by anything, is read back as that pair, consuming 17 characters |
| Mac.ParseMacBounds | lib/parse_mac_addr.c:29-34 | both halves of an accepted address are below 2^24, and exactly 17 characters are consumed |
| Mac.ParseMacSample | tests/parse_mac_addr.c:16 | "BA:D0:CA:FE:BA:BE" gives vendor BAD0CA and device FEBABE |
| Mac.ParseMacRefusals | tests/parse_mac_addr.c:18-20 | a trailing colon without the sixth group, five groups, and single-digit groups are refused |
| Ipv4.Ipv4Address | lib/ipv4address.c:9-32 | the octet loop (a dot before every octet but the first, `gcfg_dec_num` with ceiling 255, shift in) returns `Ipv4AddressSpec` |
| Ipv4.PackOctets | lib/ipv4address.c:25 | packing four octets big-endian is one-to-one: the word fits in 32 bits and each octet is read back from its place |
| Ipv4.Ipv4AddressAccepts | lib/ipv4address.c:9-32 | whatever is accepted is the dotted-quad spelling of four octets whose packing is the result, and is not followed by a digit |
| Ipv4.Ipv4AddressOfDotted | lib/ipv4address.c:9-32 | round trip: the dotted quad of four numbers is read back as their packing, consuming it whole, exactly when every number is below 256 |
| Ipv4.Ipv4AddressSample | tests/ipv4address.c:15 | "192.168.0.1" packs to C0A80001, and what follows the fourth octet is left unread |
| Ipv4.Ipv4RefusesThreeFields | tests/ipv4address.c:16-18 | three fields without a fourth are refused, whatever their values |
| Ipv4.Ipv4AddressRefusals | tests/ipv4address.c:16-22 | "259.512.892.42" and "192.168.0" are refused |
| Ipv4.ParseIpv4 | lib/parse_ipv4.c:9-38 | the address, then either a blank or the end (prefix length 32) or `/` and a prefix length of at most 32 with the mask flag, returns `ParseIpv4Spec` |
| Ipv4.ParseIpv4Accepts | lib/parse_ipv4.c:9-38 | everything accepted is an IPv4 value with a prefix length of at most 32: without the mask flag the text read is the dotted quad alone, prefix 32, followed by a blank or the end; with it, the quad, `/` and the canonical prefix length |
| Ipv4.ParseIpv4OfDotted | lib/parse_ipv4.c:20-21 | round trip: a dotted quad followed by a blank or the end reads as that address with prefix length 32 and no mask flag |
| Ipv4.ParseIpv4OfCidr | lib/parse_ipv4.c:23-35 | round trip: a dotted quad, `/` and a prefix length reads back with that prefix length and the mask flag exactly when the length is at most 32 |
| Ipv4.ParseIpv4Sample | tests/parse_ipv4.c:21 | "192.168.0.1/24" is the address with prefix length 24 and the mask flag |
| Ipv4.ParseIpv4RefusesTrailing | tests/parse_ipv4.c:27 | an address followed by anything but a blank, the end or `/` is refused |
| Ipv4.ParseIpv4RefusesBadMask | tests/parse_ipv4.c:25-26 | a `/` not followed by a digit is refused |
| Bandwidth.PrefixPower | lib/parse_bandwidth.c:27-47 | a prefix letter names a power of at most four |
| Bandwidth.Prefix | lib/parse_bandwidth.c:9-15 | the `PREFIX` step returns `PrefixAt`: the letter is consumed, and an `i` or `I` after it with it, which selects the binary scale |
| Bandwidth.ParseBandwidth | lib/parse_bandwidth.c:17-73 | the number, the prefix `switch`, the unit tests and the guard return `ParseBandwidthSpec`: the rate in bits per second, failing when it does not fit in 64 bits |
| Bandwidth.ParseBandwidthOfText | lib/parse_bandwidth.c:17-73 | round trip: a canonical number, any spelling of a decimal or binary prefix and of a byte or bit unit, then anything but a letter or digit, is read as the number times the prefix's scale times 8 for bytes, when that fits in 64 bits, and is refused otherwise |
| Bandwidth.ParseBandwidthSampleKiB | tests/parse_bandwidth.c:28 | "100kiB" is 819200 bits per second |
| Bandwidth.ParseBandwidthSampleKbps | tests/parse_bandwidth.c:25 | "100kbps" is 800000 bits per second |
| Bandwidth.ParseBandwidthSampleBit | tests/parse_bandwidth.c:19 | "100Bit" is 100 bits per second |
| Bandwidth.ParseBandwidthSampleMibps | tests/parse_bandwidth.c:40 | "100mibps" is 838860800 bits per second |
| Bandwidth.ParseBandwidthRefusals | tests/parse_bandwidth.c:41-43 | "-100k", "kbit" and "foobar" are refused |
| Ipv6.HexSpan | lib/parse_ipv6.c:20 | the digit loop of `h16` stops after the fourth hex digit or at the first byte that is not one |
| Ipv6.H16 | lib/parse_ipv6.c:11-30 | the method computes the meaning of `h16` (`H16Spec`) with a 16-bit accumulator shifted four bits per digit |
| Ipv6.H16Accepts | lib/parse_ipv6.c:11-30 | `h16` succeeds exactly when a hex digit comes first; it then reads one to four digits, their value is below 2^16, and a shorter run ends at a non-digit |
| Ipv6.HexTextDigits | lib/parse_ipv6.c:20-21 | the shortest spelling of a group is hex digits worth that group, one digit below 16, at most two below 256, at most three below 4096 |
| Ipv6.H16OfHexText | lib/parse_ipv6.c:11-30 | round trip: a group's spelling followed by a non-digit is read back as that group and consumed entirely |
| Ipv6.Ls32 | lib/parse_ipv6.c:32-49 | the method computes the meaning of `ls32` (`Ls32Spec`): a dotted quad if one is there, otherwise `h16 ":" h16` |
| Ipv6.Ls32Bounds | lib/parse_ipv6.c:32-49 | both halves `ls32` yields are 16-bit groups, and it reads at least one byte |
| Ipv6.Ls32OfDotted | lib/parse_ipv6.c:37-41 | `ls32` prefers a dotted quad and splits it into its high and low 16-bit halves |
| Ipv6.Ls32OfIpv4 | lib/parse_ipv6.c:37-41 | whatever the IPv4 reader accepts, `ls32` returns as `(v >> 16) & 0xFFFF` and `v & 0xFFFF`, ending where the IPv4 reader ended |
| Ipv6.Ipv4RefusesGroup | lib/parse_ipv6.c:37 | a run of hex digits followed by neither a digit nor a dot is no dotted quad, so `ls32` falls back to two groups |
| Ipv6.Ls32HexFirst | lib/parse_ipv6.c:32-49 | whatever `ls32` reads starts with a hex digit |
| Ipv6.TailRefusesColon | lib/parse_ipv6.c:99-110 | the second loop refuses a colon in place of its first group, so a third colon after `::` is an error |
| Ipv6.HeadFrom | lib/parse_ipv6.c:61-85 | the first loop keeps the groups already read as a prefix and yields at most eight |
| Ipv6.TailFrom | lib/parse_ipv6.c:87-111 | the second loop, bounded to the eight slots of `w`, keeps the groups already read as a prefix and yields at most eight |
| Ipv6.ReadHead | lib/parse_ipv6.c:59-85 | the first loop, filling the zeroed `v` from the front, computes `HeadFrom` and leaves the unread slots zero |
| Ipv6.ReadTail | lib/parse_ipv6.c:87-111 | the second loop, filling `w` from the front, computes `TailFrom` and leaves those groups in `w` |
| Ipv6.CopyToEnd | lib/parse_ipv6.c:118-119 | the `memcpy` puts the first `j` slots of `w` in the last `j` slots of `v` and keeps the others |
| Ipv6.ReadGroups | lib/parse_ipv6.c:59-120 | the two loops, the length check and the copy compute `Ipv6GroupsSpec`: the groups before `::`, zeros, then the groups after it |
| Ipv6.ParseIpv6 | lib/parse_ipv6.c:51-140 | the method computes `ParseIpv6Spec`: the groups, then an optional `/` and decimal prefix length of at most 128 |
| Ipv6.Ipv6GroupsOfCompressed | lib/parse_ipv6.c:61-120 | round trip for the compressed form: up to seven group spellings around `::` read back as those groups with zeros between; eight or more are refused |
| Ipv6.Ipv6GroupsOfFull | lib/parse_ipv6.c:61-85 | round trip for the full form: eight groups joined by colons read back as themselves |
| Ipv6.Ipv6GroupsOfDotted | lib/parse_ipv6.c:73-79 | round trip for the mixed form: six groups, a colon and a dotted quad read back as the six groups and the quad's halves |
| Ipv6.Ipv6GroupsOfCompressedDotted | lib/parse_ipv6.c:99-106 | a dotted quad right after `::` fills the last two slots; with six groups before `::` the address is refused as overlong |
| Ipv6.ParseIpv6OfCompressedDotted | lib/parse_ipv6.c:51-136 | groups, `::`, a dotted quad and a prefix length are read entirely, with the mask flag set |
| Ipv6.Ipv6GroupsRefusesTripleColon | lib/parse_ipv6.c:87-111 | a third colon after `::` is refused |
| Ipv6.ParseIpv6OfGroups | lib/parse_ipv6.c:131-133 | without `/` the value is the address with prefix length 128 and no mask flag |
| Ipv6.ParseIpv6OfPrefix | lib/parse_ipv6.c:124-130 | with `/` and a prefix length of at most 128 the value has that length and the mask flag |
| Ipv6.ParseIpv6RefusesLongPrefix | lib/parse_ipv6.c:125-127 | a prefix length above 128 is refused |
| Ipv6.ParseIpv6Masked | lib/parse_ipv6.c:124-130 | after `/` the outcome is the decimal reader's with ceiling 128, its value kept to the low eight bits |
| Ipv6.ParseIpv6MaskedOk | lib/parse_ipv6.c:124-130 | a prefix length the decimal reader accepts is stored with the mask flag |
| Ipv6.Ipv6GroupsAccepts | lib/parse_ipv6.c:113-119 | an accepted address has exactly eight groups of 16 bits |
| Ipv6.ParseIpv6Accepts | lib/parse_ipv6.c:122-135 | an accepted value is an IPv6 address of eight 16-bit groups, either with no mask flag and prefix length 128 or with the mask flag and a length of at most 128 |
| Ipv6.TailAsWrittenOverruns | lib/parse_ipv6.c:99-105 | *as written* (corrected partner `Ipv6.TailFrom`): with seven groups read after `::`, an `ls32` that ends the address stores nine groups, one past `w` |
| Ipv6.TailAsWrittenOverrunsOf | lib/parse_ipv6.c:99-105 | *as written*: "::1:2:3:4:5:6:7:8:9" makes the second loop store nine groups |
| Ipv6.TailAsWrittenAgrees | lib/parse_ipv6.c:87-116 | the loop as written and `Ipv6.TailFrom` agree except where the one as written stores nine groups and the corrected one eight |
| Ipv6.Ipv6GroupsAsWrittenAgrees | lib/parse_ipv6.c:59-120 | the overrun changes nothing a caller sees: the groups as written (`Ipv6GroupsAsWritten`) equal `Ipv6GroupsSpec` on every input, since the length check refuses both |
| Ipv6Samples.ParseIpv6OfUnspecified | tests/parse_ipv6.c:15 | "::" is eight zero groups, prefix length 128 |
| Ipv6Samples.ParseIpv6OfCompressedSample | tests/parse_ipv6.c:22 | "2001:41d0:52:cff::1714", in any spelling of its groups, is 2001:41d0:52:cff:0:0:0:1714 with prefix length 128 |
| Ipv6Samples.ParseIpv6OfPrefixSample | tests/parse_ipv6.c:18 | "::1/32" is the loopback group with prefix length 32 and the mask flag |
| Ipv6Samples.ParseIpv6RefusesPrefixSample | tests/parse_ipv6.c:20 | "::1/130" is refused |
| Ipv6Samples.ParseIpv6OfDottedSample | tests/parse_ipv6.c:21 | "ffff::192.168.0.1/64" is ffff:0:0:0:0:0:c0a8:1 with prefix length 64 |
| Ipv6Samples.ParseIpv6RefusesTripleColonSample | tests/parse_ipv6.c:23 | "ffff:::192.168.0.1/64" is refused |
| Uri.RunEnd | lib/parse_uri.c:214-215 | a run of one byte class ends at the first byte outside it, every byte before it is inside, and no run passes the end of the text |
| Uri.HostSpec | lib/parse_uri.c:131-183 | an accepted host reads at least one byte and is no longer than what it read |
| Uri.PortSpec | lib/parse_uri.c:185-198 | a port read is at most 65535 |
| Uri.HostPortSpec | lib/parse_uri.c:125-201 | an accepted host and port read at least one byte, the host is no longer than what was read, and a port is at most 65535 |
| Uri.Segments | lib/parse_uri.c:217-227 | the segment loop stays inside the text and writes no more than it reads |
| Uri.Rootless | lib/parse_uri.c:212-231 | `path_rootless` stays inside the text and writes no more than it reads |
| Uri.TailSpec | lib/parse_uri.c:303-304 | a query or fragment copies exactly the bytes it reads |
| Uri.AuthoritySpec | lib/parse_uri.c:259-282 | an accepted authority reads at least one byte |
| Uri.AfterSlashes | lib/parse_uri.c:248-282 | an accepted part after `//` reads at least one byte |
| Uri.HierSpec | lib/parse_uri.c:248-296 | the hierarchical part stays inside the text |
| Uri.OptTail | lib/parse_uri.c:299-318 | a query or fragment that is there reads at least its lead byte |
| Uri.Scheme | lib/parse_uri.c:55-94 | the method succeeds exactly when `SchemeSpec` does, ends past the `:`, and writes the folded scheme and its NUL at the front of the buffer |
| Uri.SchemeFolded | lib/parse_uri.c:60-87 | a scheme read is a lower-case letter followed by letters, digits, `+`, `-` and `.`, none upper-case, ending one byte before the `:` |
| Uri.HaveCharInUri | lib/parse_uri.c:42-51 | the result is true exactly when `c` occurs in the run of URI characters from `p` |
| Uri.Userinfo | lib/parse_uri.c:96-123 | the method succeeds exactly when `UserinfoSpec` does and writes the user information and its NUL |
| Uri.HostLiteral | lib/parse_uri.c:133-158 | the `[` branch computes `HostSpec`: the bracketed text is copied and must be an address `gcfg_parse_ipv6` accepts |
| Uri.HostAddress | lib/parse_uri.c:159-183 | the other branch computes `HostSpec`: a dotted IPv4 address copied, or else a non-empty registered name |
| Uri.Port | lib/parse_uri.c:185-198 | the method computes `PortSpec`: after `:` a decimal number of at most 65535 |
| Uri.Hostname | lib/parse_uri.c:125-210 | the method computes `HostPortSpec` and writes the host and its NUL |
| Uri.NextSegment | lib/parse_uri.c:217-227 | one pass of the segment loop writes what `Segments` says that pass contributes, and an unfound segment ends the loop |
| Uri.CopySegments | lib/parse_uri.c:268-278 | the segment loop writes `Segments` and stops where it ends |
| Uri.PathRootless | lib/parse_uri.c:212-231 | the method writes `Rootless` and its NUL and returns where it ends |
| Uri.PathAbempty | lib/parse_uri.c:265-282 | the path after an authority is the segments written, or `/` when there are none, and a NUL |
| Uri.CopyTail | lib/parse_uri.c:303-306 | a query or fragment is written as `TailSpec` says, with its NUL |
| Uri.Authority | lib/parse_uri.c:248-282 | the part after `//` succeeds exactly when `AfterSlashes` does; its strings are held in the buffer where the record points, and nothing below the cursor changes |
| Uri.HostAndPath | lib/parse_uri.c:259-282 | host, port and path are as `HostPortSpec` and `Segments` say, with the user information kept intact |
| Uri.ParseHier | lib/parse_uri.c:248-296 | *as written* for a rootless path (intended meaning `Uri.HierSpec`): the part succeeds exactly when `HierSpec` does; a rootless path is held at the cursor, which is not moved |
| Uri.PathAbsolute | lib/parse_uri.c:283-292 | the `/` branch writes `/`, the rootless path and a NUL, and moves the cursor past them |
| Uri.OptionalTail | lib/parse_uri.c:299-318 | a query or fragment, if there, is held at the cursor; otherwise nothing changes |
| Uri.Tails | lib/parse_uri.c:298-318 | the query, then the fragment, each held where the record points, nothing below the cursor changed |
| Uri.ParseUri | lib/parse_uri.c:235-327 | *as written* (corrected meaning `Uri.UriSpec`): fails exactly when the intended parse fails, ends where it ends, and the record's pointers read `UriAsWritten`, in which the path after a rootless path reads the query or fragment copied over it |
| Uri.ParseUriPieces | lib/parse_uri.c:238-320 | the body piece by piece: the record the scheme, hierarchical part, query and fragment make, with the path overlaid when the path is rootless |
| Uri.UriPieces | lib/parse_uri.c:238-320 | `UriAsWritten` is that same record of pieces |
| UriProps.SchemeRoundTrip | lib/parse_uri.c:60-87 | a stored scheme followed by `:` reads back as itself: folding to lower case is idempotent |
| UriProps.AsWrittenOnlyPath | lib/parse_uri.c:235-327 | the URI as written fails exactly when the intended one fails, ends at the same place, and can differ only in the path |
| UriProps.AsWrittenAgrees | lib/parse_uri.c:293-318 | the two agree unless the path is rootless and a query or fragment follows; then the path as written reads the query, or else the fragment |
| UriProps.RootlessPath | lib/parse_uri.c:293-296 | after a rootless path the intended path is the non-empty rootless run |
| UriProps.RootlessQueryOverwritesPath | lib/parse_uri.c:293-307 | "m:a?b": the intended path is "a" and query "b", and the path as written reads "b" |
| UriProps.SegmentsClean | lib/parse_uri.c:266-278 | what the segment loop writes is empty or starts with `/`; every `/` in it is followed by a path character, so it holds no `//` and no trailing `/`, and every other byte is a path character |
| UriProps.CleanJoin | lib/parse_uri.c:268-277 | a `/`, a segment of path characters and a clean rest make a clean path |
| UriProps.SlashesCollapse | lib/parse_uri.c:268-271 | a run of slashes counts as one: the loop writes the same from either of two adjacent slashes |
| UriProps.TrailingSlashDropped | lib/parse_uri.c:268-277 | a run of slashes adds nothing exactly when no path character follows it, and the loop then ends past that run: a trailing `/` is dropped |
| UriProps.AuthorityPath | lib/parse_uri.c:259-282 | after `//` and a host the path is always there and starts with `/`: it is `/` exactly when the loop wrote nothing, and a clean path otherwise; the host is there and the user information is the one read |
| UriProps.AbsolutePathNeedsPchar | lib/parse_uri.c:283-285 | after `scheme:/` not followed by a second `/`, the URI is refused exactly when the next byte is not a path character |
| UriProps.HierShape | lib/parse_uri.c:238-296 | a host is there exactly when `//` follows the scheme; without it the user information is NULL and port and flags are zero; with it there is a path and a host-kind flag |
| UriProps.HostKind | lib/parse_uri.c:140-183 | a host is flagged as IPv4, IPv6 or a registered name |
| UriProps.AbsentComponents | lib/parse_uri.c:238-318 | the record of a URI has its scheme; host, user information, port and flags as `HierShape` says; a query exactly when `?` follows the hierarchical part |
| UriSamples.HttpsVector | tests/parse_uri.c:22-33 | "https://john.doe@www.example.com:123/forum/questions/?tag=networking&order=newest#top" reads as scheme https, user john.doe, host www.example.com, port 123, path /forum/questions, the query and fragment `top`, flagged as a name with a port, as written too |
| UriSamples.BracketedVector | tests/parse_uri.c:44-54 | "HTTP://[2001:db8::7]:1337" reads as scheme http, IPv6 host 2001:db8::7, port 1337, path `/`, flagged as IPv6 with a port, as written too |
| UriSamples.LdapVector | tests/parse_uri.c:33-43 | "ldap://[2001:db8::7]/c=GB?objectClass?one" reads as scheme ldap, IPv6 host 2001:db8::7, no port, path /c=GB, query `objectClass?one`, flagged as IPv6, as written too |
| UriSamples.MailtoVector | tests/parse_uri.c:55-65 | "mailto:John.Doe@example.com" reads as scheme mailto and the path John.Doe@example.com alone, no user information, no host and flags zero, as written too |
| UriSamples.NewsVector | tests/parse_uri.c:66-76 | "news:comp.infosystems.www.servers.unix" reads as scheme news and that path alone, no host and flags zero, as written too |
| UriSamples.RootlessVector | lib/parse_uri.c:293-296 | a scheme followed only by path characters, the first not `/`, yields the scheme and that rootless path, nothing else, as written too |
| UriSamples.TelVector | tests/parse_uri.c:77-87 | "tel:+1-816-555-1212" reads as scheme tel and that path alone, no host and flags zero, as written too |
| UriSamples.TelnetVector | tests/parse_uri.c:88-98 | "telnet://192.0.2.16:80/" reads as scheme telnet, IPv4 host 192.0.2.16, port 80, path `/`, flagged as IPv4 with a port, as written too |
| Engine.Buffer | include/gcfg.h:99-105 | after a successful `fetch_line` the buffer holds the line followed by its NUL |
| Engine.KeywordNames | include/gcfg.h:111-130 | the names of a keyword table, one per entry, in table order |
| Engine.FindKeywordSpec | lib/parse_file.c:23-54 | `find_keyword` finds the first entry whose name stands at the cursor followed by a blank, a NUL or `#`, skips the blanks after it, and fails exactly when the cursor is not at a letter or digit or no entry matches |
| Engine.FindKeyword | lib/parse_file.c:23-54 | the loop over the table computes `FindKeywordSpec` |
| Engine.ParseSpec | lib/parse_file.c:169-283 | a block read from a later fetch never moves back and only adds calls to the trace |
| Engine.LineSpec | lib/parse_file.c:188-249 | each line handled consumes at least that line and only adds calls |
| Engine.KeywordLine | lib/parse_file.c:197-238 | a keyword statement, with its argument read as `apply_arg` reads it (strings decoded as written), never moves back and only adds calls |
| Engine.StatementSpec | lib/parse_file.c:212-238 | the rest of a statement never moves back and only adds calls |
| Engine.BlockSpec | lib/parse_file.c:216-233 | a block or listing opened by `{` never moves back and only adds calls |
| Engine.Finalized | lib/parse_file.c:235-238 | `finalize_object` reads no line, adds calls only, and changes nothing when the keyword has none |
| Engine.ListingSpec | lib/parse_file.c:125-167 | a listing never moves back and only adds calls |
| Engine.ListingLine | lib/parse_file.c:131-156 | each pass of the listing loop consumes at least its line |
| Engine.File.constructor | include/gcfg.h:95-109 | a new file has the given lines still to fetch and an empty buffer |
| Engine.File.FetchLine | include/gcfg.h:99-105 | `fetch_line` returns a positive value at end of file and changes nothing, a negative value on an internal error, and zero with the next line and its NUL in a new buffer |
| Engine.ApplyArg | lib/parse_file.c:56-120 | the value read for the keyword's argument type is `ArgSpec`, with strings decoded as written, without the digit cap; only a string writes the line buffer, decoded in place from its start; percentage, URI and unknown types are refused |
| Engine.CheckLine | lib/parse_file.c:188-191 | the result is true exactly when `gcfg_is_valid_utf8`, as written, accepts the line up to its NUL (`Utf8.ValidAsWrittenFrom`, which also lets the over-long TAB through) |
| Engine.Parse | lib/parse_file.c:169-283 | `parse` computes `ParseSpec`: its outcome, how many lines it fetched, and the calls it made |
| Engine.Step | lib/parse_file.c:178-250 | one pass of the loop either ends the block as `ParseSpec` says, or leaves the rest of it to `ParseSpec` from a later fetch |
| Engine.HandleLine | lib/parse_file.c:188-249 | the line just fetched is handled as `LineSpec` says |
| Engine.KeywordStatement | lib/parse_file.c:197-238 | a keyword statement runs as `KeywordLine` says |
| Engine.Statement | lib/parse_file.c:121-122 | `set_property`, the rest of the line, its block and `finalize_object` run as `StatementSpec` says |
| Engine.Block | lib/parse_file.c:216-233 | the end of the line and the block or listing opened by `{` run as `BlockSpec` says |
| Engine.PlainListing | lib/parse_file.c:125-167 | `plain_listing` computes `ListingSpec` |
| Engine.ListingPass | lib/parse_file.c:131-156 | one pass of the listing loop either ends the listing as `ListingSpec` says or leaves the rest to it from a later fetch |
| Engine.ParseFile | lib/parse_file.c:285-289 | `gcfg_parse_file` returns 0 or -1, zero exactly when the outermost block, read from the first fetch, succeeds |
| EngineProps.ParseOutcome | lib/parse_file.c:178-252 | the outermost block succeeds only by reading to end of file; an inner block succeeds only on a closing `}` line, the last it fetched |
| EngineProps.LineStep | lib/parse_file.c:178-250 | one line either leaves the block to a later fetch or ends it, successfully only on a `}` line inside a block |
| EngineProps.ClosingLine | lib/parse_file.c:239-245 | a line that `gcfg_is_valid_utf8` accepts, made of blanks, `}`, blanks and a line end, closes a block |
| EngineProps.ListingCloses | lib/parse_file.c:146-154 | a listing that succeeds ends on a `}` line, the last it fetched |
| EngineProps.ListingRecordsLines | lib/parse_file.c:131-156 | a listing that succeeds hands every line it fetched, the closing one included, to the handler, in order, one call each |
| EngineProps.ListingStep | lib/parse_file.c:131-156 | each line of a listing goes to the handler; the listing then goes on or ends, successfully only on a `}` line |
| EngineProps.BlankSource | lib/parse_file.c:195-249 | blank and comment lines make no calls: a file of them is accepted at the outermost level and refused inside a block |
| EngineProps.SetPropertyCalled | lib/parse_file.c:199-214 | `set_property` is called exactly when a keyword is found, argument presence matches its type and the argument reads; it is the statement's first call, with the value read |
| EngineProps.UnsupportedArgument | lib/parse_file.c:111-115 | a keyword whose argument type is a percentage, a URI or unknown fails its line before any call |
| EngineProps.BraceIsNoBoundary | lib/parse_file.c:45-46 | in "a{" the keyword "a" is not found, since `{` does not end a keyword, and the file is refused before any call |
| EngineProps.SimpleStatement | lib/parse_file.c:197-238 | "a" alone, for a keyword without argument, block or finalizer, makes one `set_property` call with a zeroed value and the file is accepted |
| EngineProps.ClosingBraceEndsBlock | lib/parse_file.c:239-245 | a `}` line inside a block ends it without a call |
| EngineProps.EmptyBlock | lib/parse_file.c:216-230 | "a {" then "}" for a keyword with an empty child table reads and closes the block, consuming both lines |
| EngineProps.EmptyBlockStatement | lib/parse_file.c:216-230 | the statement "a {" of that file runs its block to the `}` line |

## Left out

- Error messages: every `f->report_error(...)` call is left out. A reader's failure is the `Fail` result and nothing more, so the text and the `%.6s` excerpts are not modelled.
- `gcfg_parse_ipv6` called with `f == NULL`: it calls `f->report_error` unguarded at lib/parse_ipv6.c:114 and :138. `hostname` makes that call for a bracketed URI literal (lib/parse_uri.c:155). Since error reporting is not modelled, `Uri.HostLiteral` treats every such failure as a plain refusal.
- Number.Mantissa: the record's `int64_t value` (include/gcfg.h:70) is not modelled at its width. The mantissa is an unbounded `int`, so a magnitude of 2^63 or more is stored as is, not converted to `int64_t`.
- Values.Value: `uint16_t flags` and `uint8_t cidr_mask` (include/gcfg.h:85-86) are `nat` fields. Every value the parsers store fits those widths, and the explicit `& 0x00FF` of lib/parse_ipv6.c:129 is written out in `ParseIpv6Spec`.
- Signature drift between lib/util.h:12-45 and include/gcfg.h: the parsers follow the record-based calls that `apply_arg` makes (lib/parse_file.c:64-116).
  - `gcfg_parse_ipv4` writes `ret->flags = GCFG_NET_ADDR_IPV4` into a `gcfg_ip_addr_t`; the model stores the type code in `vtype` of the value record instead, and likewise for IPv6.
  - `gcfg_parse_number` and `gcfg_parse_vector` fill a `gcfg_number_t`; here that is a `Number.Reading`, which `Number.StoreNumber` writes into a number slot of the record.
- `gcfg_number_to_double` (lib/number_to_double.c) is floating point and is not part of this model.
- `fetch_line` is a caller callback doing I/O. It is modelled as the sequence of answers it will give (`Engine.Fetch`: a line, an internal error, or end of file), consumed one per call by `Engine.File.FetchLine`.
- The callbacks `set_property`, `finalize_object` and `handle_listing` are caller code. They are modelled as pure functions of the calls made so far (the `Engine.Trace`), the object handle and their argument. What they do to the caller's state, and the `file` argument they receive, are not modelled.
- Engine: object handles (`void *`) are opaque values of type `Engine.Handle`, with `NULL` a distinguished one.
- The `GCFG_DISABLE_VECTOR` and `GCFG_DISABLE_NETWORK` build switches (lib/parse_file.c:86-110) are not modelled; the model is the build with both sets of types enabled.
- Recursion depth: `parse` recurses once per nested block (lib/parse_file.c:226). The model has no stack limit.
- Uri.ParseUri: the bytes of the scratch buffer outside the strings the record points to are not stated. Only the strings and their NULs are.
- Engine.ApplyArg: number and vector arguments are read with the fraction sum checked (`Number.ParseNumberSpec`). Where the sum of lib/parse_number.c:46 wraps, the source stores the wrapped mantissa and the model refuses the line; everywhere else the two agree (`Number.ParseNumberAsWrittenAgrees`, `Vector.VectorAsWrittenAgrees`).
- Vector.ParseVector: `count` is at most 4, the length of the record's `number[4]` array (include/gcfg.h:69-72). `apply_arg` only passes 2, 3 or 4.
- The test drivers under tests/ are not modelled as programs. Selected vectors appear as sample lemmas, among them the whole URI table of tests/parse_uri.c in `UriSamples`. The others are instances of all-inputs lemmas, without a sample lemma of their own: the accepted vectors of tests/parse_number.c of `Number.ParseNumberOfText`, those of tests/parse_bandwidth.c of `Bandwidth.ParseBandwidthOfText`, those of tests/parse_ipv4.c of `Ipv4.ParseIpv4OfDotted` and `Ipv4.ParseIpv4OfCidr`, those of tests/parse_ipv6.c of `Ipv6.Ipv6GroupsOfCompressed` with `Ipv6.ParseIpv6OfGroups` or `Ipv6.ParseIpv6OfPrefix`, and those of tests/parse_vector.c of `Vector.ParseVectorOfText`; the refused ones of `Ipv4.ParseIpv4OfCidr` (a mask above 32), `Ipv4.Ipv4AddressOfDotted` (an octet above 255), `Ipv6.ParseIpv6Masked` (a prefix length the decimal reader refuses) and `Vector.ParseVectorOfTextOtherCount` (another element count).
- Memory layout: the record's union, raw pointers into the line buffer, and `intptr_t` enum values are modelled as a datatype with one variant per type. Pointers into the scratch buffer are offsets (`Uri.Refs`).

## Findings

| source | as written | input that shows it | evidently intended | confidence | as-written member | corrected member |
|---|---|---|---|---|---|---|
| lib/dec_num.c:30 | `max - x` is computed in `uint64_t` and wraps when the digit `x` exceeds `max`, so the overflow check passes | "7" with ceiling 5 is accepted as 7 | refuse any value above `max` | high, not executed | DecNum.DecNumAsWritten (DecNum.AsWrittenLetsSevenThrough) | DecNum.DecNumber (DecNum.DecNumAccepts, DecNum.DecNumAsWrittenAgrees) |
| lib/is_valid_utf8.c:79 | the exemption of code point 0x09 from the minimum-value check applies at every sequence length | C0 89, an overlong TAB, is accepted | reject overlong encodings, as section 3 of RFC 3629 requires | high, not executed | Utf8.ValidAsWrittenFrom (Utf8.OverlongTabAcceptedAsWritten) | Utf8.Utf8Valid (Utf8.TableStepIsRfc, Utf8.IsValidUtf8 without the flag) |
| lib/parse_number.c:46 | the fraction digits are added to the scaled integer part with no overflow check | "184467440737095516.99" is read as 83·10^-2 | refuse a mantissa above 2^64 - 1, as the checks at lines 33-36 do for scaling | high, not executed | Number.ParseNumberAsWritten (Number.FractionSumWraps) | Number.ParseNumberSpec (Number.ParseNumberBounds, Number.ParseNumberAsWrittenAgrees) |
| lib/parse_ipv6.c:99 | `ls32` is tried at `j == 7` and writes `w[8]`, one past the array | "::1:2:3:4:5:6:7:8:9" | try `ls32` only while two slots remain | medium (the result is the same refusal, but the write is undefined behaviour), not executed | Ipv6.TailFromAsWritten (Ipv6.TailAsWrittenOverrunsOf) | Ipv6.ReadGroups (Ipv6.TailFrom, Ipv6.Ipv6GroupsAsWrittenAgrees) |
| lib/parse_string.c:72-75 | the digit counter `i` is never incremented, so `\U+` reads any number of hex digits | `"\U+0000041"` decodes to "A" | read at most six hex digits | high, not executed | Strings.ParseStringAsWritten (Strings.SevenDigits) | Strings.ParseStringSpec (Strings.CapAgrees, Strings.QuoteRoundTrip) |
| lib/parse_uri.c:293-296 | after a rootless path the output cursor is not moved past it, so a query or fragment is copied over the path | "m:a?b" yields path "b" and query "b" | path "a", query "b" | high, not executed | Uri.ParseUri (UriProps.RootlessQueryOverwritesPath, UriProps.AsWrittenAgrees) | Uri.UriSpec (UriProps.RootlessPath, UriProps.AsWrittenOnlyPath) |
