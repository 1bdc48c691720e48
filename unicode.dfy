/*
 * UTF-8 lead-byte classification and decoding, include/mmml/util/unicode.hpp.
 *
 * The bit patterns are those of section 3 of RFC 3629.  Like the source,
 * the decoder checks only the lead and continuation bit patterns; it does
 * not reject overlong forms, surrogates or code points above U+10FFFF.
 */
module Unicode {
  import opened Chars
  import opened Results

  /** `Error_Code`. */
  datatype ErrorCode = NoData | MissingUnits | IllegalBits

  /** `Code_Point_And_Length`. */
  datatype CodePointAndLength = CodePointAndLength(codePoint: int, length: int)

  /** `std::countl_one` on an 8-bit unsigned value. */
  function CountlOne(c: byte): nat
  {
    var b := c as int;
    if b >= 0xFF then 8 else if b >= 0xFE then 7 else if b >= 0xFC then 6
    else if b >= 0xF8 then 5 else if b >= 0xF0 then 4 else if b >= 0xE0 then 3
    else if b >= 0xC0 then 2 else if b >= 0x80 then 1 else 0
  }

  /** The packed table `0b100'011'010'000'001`: three bits per count of
    * leading ones. */
  const LENGTH_LOOKUP: bv32 := 0x4681

  /** `sequence_length`: the length of the sequence that a lead unit `c`
    * starts, or 0 if `c` cannot lead one; never more than 4. */
  function SequenceLength(c: byte): (n: int)
    ensures 0 <= n <= 4
  {
    var leadingOnes := CountlOne(c);
    if leadingOnes > 4 then 0 else ((LENGTH_LOOKUP >> (leadingOnes * 3)) & 0x7) as int
  }

  /** The lengths by bit pattern: `0xxxxxxx` gives 1, `10xxxxxx` gives 0,
    * `110xxxxx`, `1110xxxx` and `11110xxx` give 2, 3 and 4, and five or more
    * leading ones give 0. */
  lemma SequenceLengthByPattern(c: byte)
    ensures c as int < 0x80 ==> SequenceLength(c) == 1
    ensures 0x80 <= c as int < 0xC0 ==> SequenceLength(c) == 0
    ensures 0xC0 <= c as int < 0xE0 ==> SequenceLength(c) == 2
    ensures 0xE0 <= c as int < 0xF0 ==> SequenceLength(c) == 3
    ensures 0xF0 <= c as int < 0xF8 ==> SequenceLength(c) == 4
    ensures 0xF8 <= c as int ==> SequenceLength(c) == 0
  {
    assert (LENGTH_LOOKUP >> 0) & 0x7 == 1;
    assert (LENGTH_LOOKUP >> 3) & 0x7 == 0;
    assert (LENGTH_LOOKUP >> 6) & 0x7 == 2;
    assert (LENGTH_LOOKUP >> 9) & 0x7 == 3;
    assert (LENGTH_LOOKUP >> 12) & 0x7 == 4;
  }

  /** The `static_assert`s on `sequence_length`. */
  lemma SequenceLengthExamples()
    ensures SequenceLength(0x00 as char) == 1 && SequenceLength(0x80 as char) == 0
    ensures SequenceLength(0xC0 as char) == 2 && SequenceLength(0xE0 as char) == 3
    ensures SequenceLength(0xF0 as char) == 4 && SequenceLength(0xF8 as char) == 0
  {
    SequenceLengthByPattern(0x00 as char);
    SequenceLengthByPattern(0x80 as char);
    SequenceLengthByPattern(0xC0 as char);
    SequenceLengthByPattern(0xE0 as char);
    SequenceLengthByPattern(0xF0 as char);
    SequenceLengthByPattern(0xF8 as char);
  }

  /** `decode_unchecked(std::array<char8_t, 4>, int)`: assembles the payload
    * bits of the first `length` units without looking at the marker bits.
    * The bit operations are written arithmetically: `x & 0x3f` is
    * `x % 0x40`, `x << 6` is `x * 0x40`, and `|` of the disjoint bit fields
    * is `+`. */
  function DecodeUnchecked(str: seq<byte>, length: int): (r: int)
    requires |str| == 4 && 1 <= length <= 4
    ensures 0 <= r < 0x200000
    ensures length == 1 ==> r == str[0] as int
    ensures length == 2 ==> r < 0x800
    ensures length == 3 ==> r < 0x10000
  {
    var b0, b1, b2, b3 := str[0] as int, str[1] as int, str[2] as int, str[3] as int;
    match length
    case 1 => b0
    case 2 => (b0 % 0x20) * 0x40 + b1 % 0x40
    case 3 => (b0 % 0x10) * 0x1000 + (b1 % 0x40) * 0x40 + b2 % 0x40
    case 4 => (b0 % 0x08) * 0x40000 + (b1 % 0x40) * 0x1000 + (b2 % 0x40) * 0x40 + b3 % 0x40
  }

  /** `detail::expectation_masks` and `detail::expectation_values`, one row
    * per sequence length. */
  const EXPECTATION_MASKS: seq<seq<int>> :=
    [[0x80, 0x00, 0x00, 0x00], [0xE0, 0xC0, 0x00, 0x00], [0xF0, 0xC0, 0xC0, 0x00], [0xF8, 0xC0, 0xC0, 0xC0]]
  const EXPECTATION_VALUES: seq<seq<int>> :=
    [[0x00, 0x00, 0x00, 0x00], [0xC0, 0x80, 0x00, 0x00], [0xE0, 0x80, 0x80, 0x00], [0xF0, 0x80, 0x80, 0x80]]

  /** `unit & mask` for the masks of the tables, each of which sets the top
    * bits of a byte and clears the `256 - mask` low values. */
  function MaskUnit(unit: int, mask: int): int
    requires mask in {0x00, 0x80, 0xC0, 0xE0, 0xF0, 0xF8}
  {
    unit - unit % (0x100 - mask)
  }

  /** `is_valid(std::array<char8_t, 4>, int)`.  The source compares the
    * `std::bit_cast` of the four units to `uint32_t`, masked, with the
    * packed expectation; a masked word comparison is the comparison of
    * every masked unit, which is what is written here. The only error it
    * reports is `illegal_bits`. */
  function IsValidUnits(str: seq<byte>, length: int): (r: VoidResult<ErrorCode>)
    requires |str| == 4 && 1 <= length <= 4
    ensures r.Err? ==> r.error == IllegalBits
  {
    var mask := EXPECTATION_MASKS[length - 1];
    var expected := EXPECTATION_VALUES[length - 1];
    if exists i | 0 <= i < 4 :: MaskUnit(str[i] as int, mask[i]) != expected[i] then Err(IllegalBits) else Ok
  }

  /** A continuation unit `10xxxxxx`. */
  predicate IsContinuation(c: byte) { 0x80 <= c as int < 0xC0 }

  /** The lead pattern for a sequence of `length` units. */
  predicate IsLeadOf(c: byte, length: int)
  {
    match length
    case 1 => c as int < 0x80
    case 2 => 0xC0 <= c as int < 0xE0
    case 3 => 0xE0 <= c as int < 0xF0
    case 4 => 0xF0 <= c as int < 0xF8
    case _ => false
  }

  /** The masked comparison holds iff unit 0 has the lead pattern for
    * `length` and the next `length - 1` units are continuations; units past
    * `length` are not looked at. */
  lemma IsValidUnitsByPattern(str: seq<byte>, length: int)
    requires |str| == 4 && 1 <= length <= 4
    ensures IsValidUnits(str, length).Ok? <==>
      IsLeadOf(str[0], length) && forall i :: 1 <= i < length ==> IsContinuation(str[i])
  {
    var mask := EXPECTATION_MASKS[length - 1];
    var expected := EXPECTATION_VALUES[length - 1];
    forall i | 0 <= i < 4
      ensures (MaskUnit(str[i] as int, mask[i]) == expected[i]) <==>
        (if i == 0 then IsLeadOf(str[0], length) else i >= length || IsContinuation(str[i]))
    {
      MaskOfUnit(str[i] as int);
    }
  }

  /** The (mask, value) pairs of the tables in terms of unit ranges. */
  lemma MaskOfUnit(b: int)
    requires 0 <= b < 0x100
    ensures MaskUnit(b, 0x80) == 0x00 <==> b < 0x80
    ensures MaskUnit(b, 0xE0) == 0xC0 <==> 0xC0 <= b < 0xE0
    ensures MaskUnit(b, 0xF0) == 0xE0 <==> 0xE0 <= b < 0xF0
    ensures MaskUnit(b, 0xF8) == 0xF0 <==> 0xF0 <= b < 0xF8
    ensures MaskUnit(b, 0xC0) == 0x80 <==> 0x80 <= b < 0xC0
    ensures MaskUnit(b, 0x00) == 0x00
  {
  }

  /** `decode(std::array<char8_t, 4>, int)`. */
  function Decode(str: seq<byte>, length: int): (r: Result<int, ErrorCode>)
    requires |str| == 4 && 1 <= length <= 4
    ensures r.Success? <==> IsValidUnits(str, length).Ok?
    ensures r.Success? ==> r.value == DecodeUnchecked(str, length)
    ensures r.Failure? ==> r.error == IllegalBits
  {
    if IsValidUnits(str, length).Err? then Failure(IllegalBits) else Success(DecodeUnchecked(str, length))
  }

  /** The first `length` units of `str` copied into a zero-filled array. */
  function Padded(str: seq<byte>, length: nat): (p: seq<byte>)
    requires length <= |str| && length <= 4
    ensures |p| == 4 && p[..length] == str[..length]
  {
    str[..length] + seq(4 - length, _ => 0 as char)
  }

  /** `decode_and_length`: `no_data` exactly for the empty input, and on
    * success the length of the sequence its lead unit starts, within the
    * input. */
  function DecodeAndLength(str: seq<byte>): (r: Result<CodePointAndLength, ErrorCode>)
    ensures r.Failure? && r.error == NoData <==> |str| == 0
    ensures r.Success? ==> 1 <= r.value.length <= |str| && r.value.length == SequenceLength(str[0])
  {
    if |str| == 0 then Failure(NoData)
    else
      var length := SequenceLength(str[0]);
      if length == 0 then Failure(IllegalBits)
      else if |str| < length then Failure(MissingUnits)
      else
        var result := Decode(Padded(str, length), length);
        if result.Failure? then Failure(result.error)
        else Success(CodePointAndLength(result.value, length))
  }

  /** The failure cases of `decode_and_length`, in the order it tests them,
    * and what it returns on success. */
  lemma DecodeAndLengthCases(str: seq<byte>)
    ensures |str| == 0 <==> DecodeAndLength(str) == Failure(NoData)
    ensures |str| > 0 && SequenceLength(str[0]) == 0 ==> DecodeAndLength(str) == Failure(IllegalBits)
    ensures |str| > 0 && 0 < SequenceLength(str[0]) && |str| < SequenceLength(str[0])
      ==> DecodeAndLength(str) == Failure(MissingUnits)
    ensures |str| > 0 && 0 < SequenceLength(str[0]) <= |str|
      ==> (DecodeAndLength(str).Success? <==>
            forall i :: 1 <= i < SequenceLength(str[0]) ==> IsContinuation(str[i]))
    ensures DecodeAndLength(str).Success? ==>
      var r := DecodeAndLength(str).value;
      1 <= r.length <= 4 && r.length <= |str| && r.length == SequenceLength(str[0])
      && r.codePoint == DecodeUnchecked(Padded(str, r.length), r.length)
  {
    if |str| > 0 && 0 < SequenceLength(str[0]) <= |str| {
      DecodeAndLengthValid(str);
    }
  }

  /** When the input holds the whole sequence its lead unit starts, the
    * decoding succeeds exactly when the units after the lead are
    * continuations. */
  lemma DecodeAndLengthValid(str: seq<byte>)
    requires |str| > 0 && 0 < SequenceLength(str[0]) <= |str|
    ensures DecodeAndLength(str).Success? <==>
      forall i :: 1 <= i < SequenceLength(str[0]) ==> IsContinuation(str[i])
    ensures DecodeAndLength(str).Success? ==>
      DecodeAndLength(str).value.codePoint == DecodeUnchecked(Padded(str, SequenceLength(str[0])), SequenceLength(str[0]))
  {
    var length := SequenceLength(str[0]);
    SequenceLengthByPattern(str[0]);
    assert IsLeadOf(str[0], length);
    var p := Padded(str, length);
    IsValidUnitsByPattern(p, length);
    assert p[0] == str[0];
    assert forall i :: 1 <= i < length ==> p[i] == str[i];
  }

  /** The `static_assert`s on `decode_unchecked`: "a", U+00E9, U+0905 and
    * U+1F600 in their UTF-8 forms. */
  lemma DecodeExamples()
    ensures DecodeUnchecked(['a', 0 as char, 0 as char, 0 as char], 1) == 'a' as int
    ensures DecodeUnchecked([0xC3 as char, 0xA9 as char, 0 as char, 0 as char], 2) == 0xE9
    ensures DecodeUnchecked([0xE0 as char, 0xA4 as char, 0x85 as char, 0 as char], 3) == 0x905
    ensures DecodeUnchecked([0xF0 as char, 0x9F as char, 0x98 as char, 0x80 as char], 4) == 0x1F600
  {
  }

  // ---------------------------------------------------------------------
  // The encoder of RFC 3629 section 3, as a reference for the decoder.

  /** The UTF-8 form of a code point below 0x110000. */
  function Encode(cp: int): (s: seq<byte>)
    requires 0 <= cp < 0x110000
    ensures 1 <= |s| <= 4
  {
    if cp < 0x80 then [cp as char]
    else if cp < 0x800 then [(0xC0 + cp / 0x40) as char, (0x80 + cp % 0x40) as char]
    else if cp < 0x10000 then
      [(0xE0 + cp / 0x1000) as char, (0x80 + cp / 0x40 % 0x40) as char, (0x80 + cp % 0x40) as char]
    else
      [(0xF0 + cp / 0x40000) as char, (0x80 + cp / 0x1000 % 0x40) as char,
       (0x80 + cp / 0x40 % 0x40) as char, (0x80 + cp % 0x40) as char]
  }

  /** Decoding the encoding of a code point gives the code point and the
    * length of its encoding, whatever follows it. */
  lemma DecodeEncode(cp: int, rest: seq<byte>)
    requires 0 <= cp < 0x110000
    ensures DecodeAndLength(Encode(cp) + rest) == Success(CodePointAndLength(cp, |Encode(cp)|))
  {
    var s := Encode(cp) + rest;
    var n := |Encode(cp)|;
    SequenceLengthByPattern(s[0]);
    DecodeAndLengthCases(s);
    var p := Padded(s, n);
    assert p[..n] == Encode(cp);
    PayloadBits(cp, p, n);
  }

  lemma PayloadBits(cp: int, p: seq<byte>, n: int)
    requires 0 <= cp < 0x110000 && |p| == 4 && n == |Encode(cp)| && p[..n] == Encode(cp)
    ensures DecodeUnchecked(p, n) == cp
  {
    assert p[0] == Encode(cp)[0];
    if n == 2 {
      assert p[1] == Encode(cp)[1];
      PayloadBits2(cp, p[0] as int, p[1] as int);
    } else if n == 3 {
      assert p[1] == Encode(cp)[1] && p[2] == Encode(cp)[2];
      PayloadBits3(cp, p[0] as int, p[1] as int, p[2] as int);
    } else if n == 4 {
      assert p[1] == Encode(cp)[1] && p[2] == Encode(cp)[2] && p[3] == Encode(cp)[3];
      PayloadBits4(cp, p[0] as int, p[1] as int, p[2] as int, p[3] as int);
    }
  }

  lemma PayloadBits2(cp: int, b0: int, b1: int)
    requires 0x80 <= cp < 0x800 && b0 == 0xC0 + cp / 0x40 && b1 == 0x80 + cp % 0x40
    ensures (b0 % 0x20) * 0x40 + b1 % 0x40 == cp
  {
    assert b0 % 0x20 == cp / 0x40;
  }

  lemma PayloadBits3(cp: int, b0: int, b1: int, b2: int)
    requires 0x800 <= cp < 0x10000
    requires b0 == 0xE0 + cp / 0x1000 && b1 == 0x80 + cp / 0x40 % 0x40 && b2 == 0x80 + cp % 0x40
    ensures (b0 % 0x10) * 0x1000 + (b1 % 0x40) * 0x40 + b2 % 0x40 == cp
  {
    var q0, q1 := cp / 0x40, cp / 0x1000;
    assert q1 == q0 / 0x40;
    assert b0 % 0x10 == q1;
    assert b1 % 0x40 == q0 % 0x40;
    assert cp == q0 * 0x40 + cp % 0x40;
    assert q0 == q1 * 0x40 + q0 % 0x40;
  }

  lemma PayloadBits4(cp: int, b0: int, b1: int, b2: int, b3: int)
    requires 0x10000 <= cp < 0x110000
    requires b0 == 0xF0 + cp / 0x40000 && b1 == 0x80 + cp / 0x1000 % 0x40
    requires b2 == 0x80 + cp / 0x40 % 0x40 && b3 == 0x80 + cp % 0x40
    ensures (b0 % 0x08) * 0x40000 + (b1 % 0x40) * 0x1000 + (b2 % 0x40) * 0x40 + b3 % 0x40 == cp
  {
    var q0, q1, q2 := cp / 0x40, cp / 0x1000, cp / 0x40000;
    assert q1 == q0 / 0x40 && q2 == q1 / 0x40;
    assert b0 % 0x08 == q2;
    assert b1 % 0x40 == q1 % 0x40;
    assert b2 % 0x40 == q0 % 0x40;
    assert cp == q0 * 0x40 + cp % 0x40;
    assert q0 == q1 * 0x40 + q0 % 0x40;
    assert q1 == q2 * 0x40 + q1 % 0x40;
  }

  /** Every lead unit accepted with length n appears as the lead of an
    * encoding of length n: the classification is the one of RFC 3629. */
  lemma EncodeLeadClassified(cp: int)
    requires 0 <= cp < 0x110000
    ensures IsLeadOf(Encode(cp)[0], |Encode(cp)|)
    ensures forall i :: 1 <= i < |Encode(cp)| ==> IsContinuation(Encode(cp)[i])
  {
  }

  // ---------------------------------------------------------------------
  // Whole strings.

  /** The whole of `s` splits into sequences that `decode_and_length`
    * accepts. */
  predicate Valid(s: seq<byte>)
    decreases |s|
  {
    s == [] ||
    (DecodeAndLength(s).Success? && ValidAfterFirst(s))
  }

  predicate ValidAfterFirst(s: seq<byte>)
    requires DecodeAndLength(s).Success?
    decreases |s|, 0
  {
    DecodeAndLengthCases(s);
    Valid(s[DecodeAndLength(s).value.length..])
  }

  /** The error `is_valid(string)` reports: the first failure of
    * `decode_and_length` along the split. */
  function FirstError(s: seq<byte>): (r: VoidResult<ErrorCode>)
    ensures r.Ok? <==> Valid(s)
    decreases |s|
  {
    if s == [] then Ok
    else
      var next := DecodeAndLength(s);
      if next.Failure? then Err(next.error)
      else
        DecodeAndLengthCases(s);
        FirstError(s[next.value.length..])
  }

  /** `is_valid(std::u8string_view)`: decodes sequence after sequence,
    * removing each from the front, and stops at the first error. */
  method IsValid(str: seq<byte>) returns (r: VoidResult<ErrorCode>)
    ensures r == FirstError(str)
    ensures r.Ok? <==> Valid(str)
  {
    var rest := str;
    while rest != []
      invariant FirstError(rest) == FirstError(str)
      decreases |rest|
    {
      var next := DecodeAndLength(rest);
      if next.Failure? {
        return Err(next.error);
      }
      DecodeAndLengthCases(rest);
      rest := rest[next.value.length..];
    }
    return Ok;
  }

  /** In a valid string every ASCII unit is a whole sequence, so what
    * follows it is valid too. */
  lemma ValidAfterAscii(s: seq<byte>)
    requires Valid(s) && s != [] && s[0] as int < 0x80
    ensures Valid(s[1..])
  {
    DecodeAndLengthCases(s);
    SequenceLengthByPattern(s[0]);
  }

  /** In a valid string an ASCII unit can only be the lead of a sequence,
    * so the string is valid from there on. */
  lemma {:induction false} ValidAtAscii(s: seq<byte>, a: nat, j: nat)
    requires a <= j < |s| && Valid(s[a..]) && s[j] as int < 0x80
    ensures Valid(s[j..])
    decreases j - a
  {
    if a < j {
      var t := s[a..];
      DecodeAndLengthCases(t);
      var length := DecodeAndLength(t).value.length;
      if a + length <= j {
        assert t[length..] == s[a + length..];
        ValidAtAscii(s, a + length, j);
      } else {
        assert false;
      }
    }
  }

  /** What follows an ASCII unit of a valid string is valid. */
  lemma ValidAfterAsciiAt(s: seq<byte>, a: nat, j: nat)
    requires a <= j < |s| && Valid(s[a..]) && s[j] as int < 0x80
    ensures Valid(s[j + 1..])
  {
    ValidAtAscii(s, a, j);
    ValidAfterAscii(s[j..]);
    assert s[j..][1..] == s[j + 1..];
  }

  /** An ASCII unit decodes to itself, as a sequence of length 1. */
  lemma DecodeAscii(s: seq<byte>)
    requires s != [] && s[0] as int < 0x80
    ensures DecodeAndLength(s) == Success(CodePointAndLength(s[0] as int, 1))
  {
    DecodeAndLengthCases(s);
    SequenceLengthByPattern(s[0]);
  }

  /** A valid non-empty string starts with a sequence that decodes. */
  lemma ValidDecodes(s: seq<byte>)
    requires Valid(s) && s != []
    ensures DecodeAndLength(s).Success?
  {
  }

  /** The encoding of a code point followed by a valid string is valid. */
  lemma ValidEncodePrefix(cp: int, rest: seq<byte>)
    requires 0 <= cp < 0x110000 && Valid(rest)
    ensures Valid(Encode(cp) + rest)
  {
    DecodeEncode(cp, rest);
    assert (Encode(cp) + rest)[|Encode(cp)|..] == rest;
  }

  // ---------------------------------------------------------------------
  // Iteration.

  /** `Code_Point_Iterator` over `data`: `pointer` is the offset of
    * `m_pointer`, and `m_end` is the end of `data`. */
  class CodePointIterator {
    const data: seq<byte>
    var pointer: nat

    constructor (str: seq<byte>)
      ensures data == str && pointer == 0
    {
      data := str;
      pointer := 0;
    }

    /** `operator++`: advances by the sequence length of the lead unit, or
      * throws `Unicode_Error` (here: returns `false` and leaves the
      * iterator where it was) when the lead is invalid or the sequence
      * would overrun the end.  Dereferencing the lead unit requires that
      * the iterator is not at the end. */
    method Increment() returns (ok: bool)
      requires pointer < |data|
      modifies this
      ensures var length := SequenceLength(data[old(pointer)]);
        ok <==> (length != 0 && length <= |data| - old(pointer))
      ensures ok ==> pointer == old(pointer) + SequenceLength(data[old(pointer)])
      ensures !ok ==> pointer == old(pointer)
    {
      var length := SequenceLength(data[pointer]);
      if length == 0 || length > |data| - pointer {
        return false;
      }
      pointer := pointer + length;
      return true;
    }

    /** `next()`: decodes the sequence at the iterator. */
    function Next(): Result<CodePointAndLength, ErrorCode>
      reads this
      requires pointer <= |data|
    {
      DecodeAndLength(data[pointer..])
    }
  }
}
