/*
 * Scanning helpers used by the parser and the paragraph splitter,
 * src/main/cpp/parse_utils.cpp, and `find_blank_line_sequence`, whose
 * behaviour is pinned by src/test/cpp/test_chars_strings.cpp.
 */
module ParseUtils {
  import opened Chars
  import opened Options

  /** `Blank_Line`; it converts to `false` when its length is 0, so the
    * value-initialised `{0, 0}` is falsy. */
  datatype BlankLine = BlankLine(begin: nat, length: nat)
  {
    predicate IsTruthy() { length != 0 }
  }

  const NO_BLANK_LINE := BlankLine(0, 0)

  predicate IsWs(c: byte) { IsAsciiWhitespace(c as int) }

  predicate AllWhitespace(s: seq<byte>, a: int, b: int)
    requires 0 <= a <= b <= |s|
  {
    forall k :: a <= k < b ==> IsWs(s[k])
  }

  predicate NoNewline(s: seq<byte>, a: int, b: int)
    requires 0 <= a <= b <= |s|
  {
    forall k :: a <= k < b ==> s[k] != '\n'
  }

  /** The first index at or after `j` that does not hold whitespace, or
    * `|s|`. */
  function FirstNonWhitespace(s: seq<byte>, j: nat): (m: nat)
    requires j <= |s|
    ensures j <= m <= |s| && AllWhitespace(s, j, m) && (m < |s| ==> !IsWs(s[m]))
    decreases |s| - j
  {
    if j == |s| || !IsWs(s[j]) then j else FirstNonWhitespace(s, j + 1)
  }

  /** `j` begins a line that is not the first one. */
  predicate AfterNewline(s: seq<byte>, j: int)
  {
    1 <= j <= |s| && s[j - 1] == '\n'
  }

  /** What `find_blank_line` looks for: the line beginning at `j` (after a
    * newline) is whitespace up to the newline at `e`, and after `e` only
    * whitespace without a newline precedes a non-whitespace byte. */
  predicate BlankLineAt(s: seq<byte>, j: int, e: int)
  {
    AfterNewline(s, j) && j <= e < |s|
    && var m := FirstNonWhitespace(s, j);
    m < |s| && e < m && s[e] == '\n' && NoNewline(s, e + 1, m)
  }

  lemma WhitespaceToEnd(s: seq<byte>, a: int, j: int)
    requires 0 <= a <= j <= |s| && AllWhitespace(s, a, |s|)
    ensures FirstNonWhitespace(s, j) == |s|
    decreases |s| - j
  {
    if j < |s| { WhitespaceToEnd(s, a, j + 1); }
  }

  lemma FirstNonWhitespaceAt(s: seq<byte>, j: int, i: int)
    requires 0 <= j <= i < |s| && AllWhitespace(s, j, i) && !IsWs(s[i])
    ensures FirstNonWhitespace(s, j) == i
    decreases i - j
  {
    if j < i { FirstNonWhitespaceAt(s, j + 1, i); }
  }

  datatype State = Normal | MaybeBlank | Blank

  /** `find_blank_line`: a state machine over the bytes of `str`.  It
    * reports `{begin, length}` for the first line (after a newline) that is
    * whitespace only and is followed, after any further whitespace, by a
    * non-whitespace byte; `begin + length` is the last newline before that
    * byte.  Otherwise it returns the value-initialised result. */
  method FindBlankLine(str: seq<byte>) returns (r: BlankLine)
    ensures r != NO_BLANK_LINE ==> 1 <= r.begin && BlankLineAt(str, r.begin, r.begin + r.length)
    ensures r != NO_BLANK_LINE ==> forall j, e :: j < r.begin ==> !BlankLineAt(str, j, e)
    ensures r == NO_BLANK_LINE ==> forall j, e :: !BlankLineAt(str, j, e)
  {
    var state := Normal;
    var blankBegin: nat := 0;
    var blankEnd: nat := 0;
    var i := 0;
    while i < |str|
      invariant 0 <= i <= |str|
      // Every line start at or before i (if any) already ended its
      // whitespace run before i, without a newline in it.
      invariant state == Normal ==> forall j | AfterNewline(str, j) && j <= i ::
        FirstNonWhitespace(str, j) < i && NoNewline(str, j, FirstNonWhitespace(str, j))
      invariant state != Normal ==>
        && AfterNewline(str, blankBegin) && blankBegin <= i
        && AllWhitespace(str, blankBegin, i)
        && forall j | AfterNewline(str, j) && j < blankBegin ::
             FirstNonWhitespace(str, j) < blankBegin && NoNewline(str, j, FirstNonWhitespace(str, j))
      invariant state == MaybeBlank ==> NoNewline(str, blankBegin, i)
      invariant state == Blank ==>
        && blankBegin <= blankEnd < i && str[blankEnd] == '\n'
        && NoNewline(str, blankEnd + 1, i)
      decreases |str| - i
    {
      match state {
      case Normal =>
        if str[i] == '\n' {
          state := MaybeBlank;
          blankBegin := i + 1;
        }
      case MaybeBlank =>
        if str[i] == '\n' {
          state := Blank;
          blankEnd := i;
        } else if !IsWs(str[i]) {
          state := Normal;
          forall j | AfterNewline(str, j) && j <= i + 1
            ensures FirstNonWhitespace(str, j) < i + 1 && NoNewline(str, j, FirstNonWhitespace(str, j))
          {
            if j >= blankBegin { FirstNonWhitespaceAt(str, j, i); }
          }
        }
      case Blank =>
        if str[i] == '\n' {
          blankEnd := i;
        } else if !IsWs(str[i]) {
          FirstNonWhitespaceAt(str, blankBegin, i);
          forall j, e | j < blankBegin ensures !BlankLineAt(str, j, e) {}
          return BlankLine(blankBegin, blankEnd - blankBegin);
        }
      }
      i := i + 1;
    }
    if state != Normal {
      WhitespaceToEnd(str, blankBegin, blankBegin);
      forall j, e | AfterNewline(str, j) && j >= blankBegin ensures !BlankLineAt(str, j, e) {
        WhitespaceToEnd(str, blankBegin, j);
      }
    }
    return NO_BLANK_LINE;
  }

  // ---------------------------------------------------------------------
  // `find_blank_line_sequence` (declared in parse_utils.hpp, which is not
  // part of this model).  The definition chosen here reports the first line
  // start `j` (the start of the text or one past a newline) from which the
  // whitespace run contains a newline; the sequence reaches through the last
  // newline of that run, so consecutive blank lines form one sequence.

  predicate LineStart(s: seq<byte>, j: int)
  {
    j == 0 || AfterNewline(s, j)
  }

  /** The index one past the last newline in `s[a..b]`, or `a` if there is
    * none. */
  function PastLastNewline(s: seq<byte>, a: int, b: int): (p: int)
    requires 0 <= a <= b <= |s|
    ensures a <= p <= b && NoNewline(s, p, b)
    ensures p > a ==> s[p - 1] == '\n'
    ensures p == a ==> NoNewline(s, a, b)
    decreases b - a
  {
    if a == b then a
    else if s[b - 1] == '\n' then b
    else PastLastNewline(s, a, b - 1)
  }

  /** A blank sequence starts at `j`. */
  predicate BlankSequenceAt(s: seq<byte>, j: int)
  {
    0 <= j <= |s| && LineStart(s, j)
    && PastLastNewline(s, j, FirstNonWhitespace(s, j)) > j
  }

  /** The search from line start candidate `j` on: nothing (a falsy
    * value) when no index from `j` begins a blank sequence; otherwise the
    * first such index, and a span of whitespace that ends in a newline. */
  function FindBlankLineSequenceFrom(s: seq<byte>, j: nat): (r: BlankLine)
    requires j <= |s|
    ensures !r.IsTruthy() ==> r == NO_BLANK_LINE
    ensures r.IsTruthy() ==> j <= r.begin && r.begin + r.length <= |s|
    decreases |s| - j
  {
    if BlankSequenceAt(s, j) then
      BlankLine(j, PastLastNewline(s, j, FirstNonWhitespace(s, j)) - j)
    else if j == |s| then NO_BLANK_LINE
    else FindBlankLineSequenceFrom(s, j + 1)
  }

  /** What the search from `j` finds: nothing when no index from `j` on
    * begins a blank sequence; otherwise the first such index, and a span
    * of whitespace that ends in a newline. */
  lemma {:induction false} FindBlankLineSequenceFromSpec(s: seq<byte>, j: nat)
    requires j <= |s|
    ensures var r := FindBlankLineSequenceFrom(s, j);
      && (!r.IsTruthy() ==> forall k :: j <= k <= |s| ==> !BlankSequenceAt(s, k))
      && (r.IsTruthy() ==>
            BlankSequenceAt(s, r.begin)
            && AllWhitespace(s, r.begin, r.begin + r.length) && s[r.begin + r.length - 1] == '\n')
      && (r.IsTruthy() ==> forall k :: j <= k < r.begin ==> !BlankSequenceAt(s, k))
    decreases |s| - j
  {
    if BlankSequenceAt(s, j) {
      var f := FirstNonWhitespace(s, j);
      var p := PastLastNewline(s, j, f);
      assert FindBlankLineSequenceFrom(s, j) == BlankLine(j, p - j);
      assert AllWhitespace(s, j, p) by {
        assert AllWhitespace(s, j, f);
      }
    } else if j < |s| {
      FindBlankLineSequenceFromSpec(s, j + 1);
      assert FindBlankLineSequenceFrom(s, j) == FindBlankLineSequenceFrom(s, j + 1);
    }
  }

  function FindBlankLineSequence(s: seq<byte>): BlankLine
  {
    FindBlankLineSequenceFrom(s, 0)
  }

  lemma FindBlankLineSequenceSpec(s: seq<byte>)
    ensures var r := FindBlankLineSequence(s);
      && (r.IsTruthy() <==> exists k :: 0 <= k <= |s| && BlankSequenceAt(s, k))
      && (!r.IsTruthy() ==> r == NO_BLANK_LINE)
      && (r.IsTruthy() ==>
            r.begin + r.length <= |s| && LineStart(s, r.begin)
            && AllWhitespace(s, r.begin, r.begin + r.length) && s[r.begin + r.length - 1] == '\n'
            && forall k :: 0 <= k < r.begin ==> !BlankSequenceAt(s, k))
  {
    FindBlankLineSequenceFromSpec(s, 0);
    var r := FindBlankLineSequence(s);
    if r.IsTruthy() {
      assert BlankSequenceAt(s, r.begin);
    }
  }

  // The expectations of the `find_blank_line_sequence` test.

  lemma FindBlankLineSequenceWithoutBlank()
    ensures FindBlankLineSequence("") == BlankLine(0, 0)
    ensures FindBlankLineSequence("awoo") == BlankLine(0, 0)
  {
    var s: seq<byte> := "awoo";
    assert FirstNonWhitespace(s, 0) == 0;
    assert !BlankSequenceAt(s, 1) && !BlankSequenceAt(s, 2) && !BlankSequenceAt(s, 3) && !BlankSequenceAt(s, 4);
  }

  lemma FindBlankLineSequenceSingleNewlines()
    ensures FindBlankLineSequence("a\nw\no\no") == BlankLine(0, 0)
  {
    var s: seq<byte> := "a\nw\no\no";
    assert FirstNonWhitespace(s, 0) == 0 && FirstNonWhitespace(s, 2) == 2;
    assert FirstNonWhitespace(s, 4) == 4 && FirstNonWhitespace(s, 6) == 6;
  }

  lemma FindBlankLineSequenceLeading()
    ensures FindBlankLineSequence("\nawoo") == BlankLine(0, 1)
  {
    var s: seq<byte> := "\nawoo";
    assert FirstNonWhitespace(s, 0) == 1;
    assert PastLastNewline(s, 0, 1) == 1;
  }

  lemma FindBlankLineSequenceTrailing()
    ensures FindBlankLineSequence("awoo\n  \n") == BlankLine(5, 3)
  {
    var s: seq<byte> := "awoo\n  \n";
    assert FirstNonWhitespace(s, 0) == 0;
    assert !BlankSequenceAt(s, 1) && !BlankSequenceAt(s, 2) && !BlankSequenceAt(s, 3) && !BlankSequenceAt(s, 4);
    assert FirstNonWhitespace(s, 5) == 8;
    assert PastLastNewline(s, 5, 8) == 8;
  }

  lemma FindBlankLineSequenceInner()
    ensures FindBlankLineSequence("aw\n\noo") == BlankLine(3, 1)
  {
    var s: seq<byte> := "aw\n\noo";
    assert FirstNonWhitespace(s, 0) == 0;
    assert !BlankSequenceAt(s, 1) && !BlankSequenceAt(s, 2);
    assert FirstNonWhitespace(s, 3) == 4;
    assert PastLastNewline(s, 3, 4) == 4;
  }

  // ---------------------------------------------------------------------
  // Integer literals.

  const HEXADECIMAL_DIGITS: seq<byte> := "0123456789abcdefABCDEF"

  predicate IsValidBase(base: int) { 2 <= base <= 10 || base == 16 }

  /** The digit alphabet of `match_digits`: all of `HEXADECIMAL_DIGITS` for
    * base 16, its first `base` characters otherwise. */
  function DigitAlphabet(base: int): seq<byte>
    requires IsValidBase(base)
  {
    if base == 16 then HEXADECIMAL_DIGITS else HEXADECIMAL_DIGITS[..base]
  }

  /** The value of a digit `c` in `base`, or -1 if it is not one. */
  function DigitValue(c: byte, base: int): (v: int)
    requires IsValidBase(base)
    ensures -1 <= v < base
  {
    var x := c as int;
    if '0' as int <= x <= '9' as int && x - '0' as int < base then x - '0' as int
    else if base == 16 && 'a' as int <= x <= 'f' as int then x - 'a' as int + 10
    else if base == 16 && 'A' as int <= x <= 'F' as int then x - 'A' as int + 10
    else -1
  }

  predicate IsDigit(c: byte, base: int)
    requires IsValidBase(base)
  {
    DigitValue(c, base) >= 0
  }

  /** `DigitAlphabet` lists exactly the digits. */
  lemma DigitAlphabetIsDigits(c: byte, base: int)
    requires IsValidBase(base)
    ensures Contains(DigitAlphabet(base), c as int) <==> IsDigit(c, base)
  {
    var a := DigitAlphabet(base);
    if IsDigit(c, base) {
      var v := DigitValue(c, base);
      var i := if c as int >= 'A' as int && c as int <= 'F' as int then v + 6 else v;
      assert a[i] == c;
    }
    if Contains(a, c as int) {
      var i :| 0 <= i < |a| && a[i] as int == c as int;
      assert a[i] == HEXADECIMAL_DIGITS[i];
    }
  }

  /** `match_digits`: the length of the longest prefix of `str` made of
    * digits of `base` (both letter cases for base 16). */
  function MatchDigits(str: seq<byte>, base: int): (n: nat)
    requires IsValidBase(base)
    ensures n <= |str|
    ensures forall i :: 0 <= i < n ==> IsDigit(str[i], base)
    ensures n < |str| ==> !IsDigit(str[n], base)
  {
    if str == [] || !IsDigit(str[0], base) then 0 else 1 + MatchDigits(str[1..], base)
  }

  datatype LiteralMatchStatus = Ok | NoDigits | NoDigitsFollowingPrefix
  datatype LiteralType = Binary | Octal | Decimal | Hexadecimal

  /** `Literal_Match_Result`; the type of a `no_digits` result is the
    * value-initialised one, written `None` here. */
  datatype LiteralMatchResult = LiteralMatchResult(status: LiteralMatchStatus, length: nat, kind: Option<LiteralType>)

  predicate StartsWith(s: seq<byte>, prefix: seq<byte>)
  {
    |prefix| <= |s| && s[..|prefix|] == prefix
  }

  /** `match_integer_literal`: it never reaches past the input, finds no
    * digits exactly when the input does not start with an ASCII digit, and
    * reports a bare `0b` or `0x` prefix as two bytes lacking their digits. */
  function MatchIntegerLiteral(s: seq<byte>): (r: LiteralMatchResult)
    ensures r.length <= |s|
    ensures r.status == NoDigits <==> s == [] || !IsAsciiDigit(s[0] as int)
    ensures r.status == NoDigitsFollowingPrefix ==> r.length == 2 && r.kind in {Some(Binary), Some(Hexadecimal)}
    ensures r.status == NoDigits <==> r.kind.None?
  {
    if s == [] || !IsAsciiDigit(s[0] as int) then LiteralMatchResult(NoDigits, 0, None)
    else if StartsWith(s, "0b") then
      var digits := MatchDigits(s[2..], 2);
      if digits == 0 then LiteralMatchResult(NoDigitsFollowingPrefix, 2, Some(Binary))
      else LiteralMatchResult(Ok, digits + 2, Some(Binary))
    else if StartsWith(s, "0x") then
      var digits := MatchDigits(s[2..], 16);
      if digits == 0 then LiteralMatchResult(NoDigitsFollowingPrefix, 2, Some(Hexadecimal))
      else LiteralMatchResult(Ok, digits + 2, Some(Hexadecimal))
    else if s[0] == '0' then
      var digits := MatchDigits(s, 8);
      LiteralMatchResult(Ok, digits, Some(if digits == 1 then Decimal else Octal))
    else
      LiteralMatchResult(Ok, MatchDigits(s, 10), Some(Decimal))
  }

  /** The match never reaches past the input; an `ok` match with a prefix
    * covers the prefix and at least one digit of its base, and any other
    * `ok` match is a non-empty run of octal or decimal digits. */
  lemma MatchIntegerLiteralBounds(s: seq<byte>)
    ensures var r := MatchIntegerLiteral(s);
      && r.length <= |s|
      && (r.status == NoDigits <==> s == [] || !IsAsciiDigit(s[0] as int))
      && (r.status == NoDigits ==> r.length == 0)
      && (r.status == NoDigitsFollowingPrefix ==> r.length == 2)
      && (r.status == Ok && r.kind == Some(Binary) ==> r.length > 2 && forall i :: 2 <= i < r.length ==> IsDigit(s[i], 2))
      && (r.status == Ok && r.kind == Some(Hexadecimal) ==> r.length > 2 && forall i :: 2 <= i < r.length ==> IsDigit(s[i], 16))
      && (r.status == Ok && r.kind == Some(Octal) ==> r.length >= 2 && forall i :: 0 <= i < r.length ==> IsDigit(s[i], 8))
      && (r.status == Ok && r.kind == Some(Decimal) ==> r.length >= 1 && forall i :: 0 <= i < r.length ==> IsDigit(s[i], 10))
  {
    var r := MatchIntegerLiteral(s);
    if s != [] && IsAsciiDigit(s[0] as int) && !StartsWith(s, "0b") && !StartsWith(s, "0x") {
      assert IsDigit(s[0], 10);
      if s[0] == '0' { assert IsDigit(s[0], 8); }
    }
    if r.status == Ok && r.kind == Some(Binary) {
      forall i | 2 <= i < r.length ensures IsDigit(s[i], 2) { assert s[i] == s[2..][i - 2]; }
    }
    if r.status == Ok && r.kind == Some(Hexadecimal) {
      forall i | 2 <= i < r.length ensures IsDigit(s[i], 16) { assert s[i] == s[2..][i - 2]; }
    }
    if r.status == Ok && r.kind == Some(Decimal) && s[0] == '0' {
      forall i | 0 <= i < r.length ensures IsDigit(s[i], 10) { }
    }
  }

  const ULLONG_MAX: int := 0x1_0000_0000_0000_0000 - 1

  /** The value of a string of digits of `base`, most significant first. */
  function DigitsValue(s: seq<byte>, base: int): nat
    requires IsValidBase(base)
    requires forall i :: 0 <= i < |s| ==> IsDigit(s[i], base)
  {
    if s == [] then 0
    else
      assert IsDigit(s[|s| - 1], base);
      DigitsValue(s[..|s| - 1], base) * base + DigitValue(s[|s| - 1], base)
  }

  /** `std::from_chars` into `unsigned long long`: it reads the longest
    * prefix of digits of `base` and fails when there is none or when its
    * value does not fit; `parse_uinteger_digits` looks only at that error,
    * so bytes after the digits are ignored. */
  function ParseUintegerDigits(text: seq<byte>, base: int): (r: Option<nat>)
    requires IsValidBase(base)
    ensures r.Some? ==> r.value <= ULLONG_MAX
  {
    var n := MatchDigits(text, base);
    if n == 0 then None
    else
      var value := DigitsValue(text[..n], base);
      if value > ULLONG_MAX then None else Some(value)
  }

  /** `parse_uinteger_literal`: a value fits an `unsigned long long`, and
    * a literal starts with an ASCII digit. */
  function ParseUintegerLiteral(str: seq<byte>): (r: Option<nat>)
    ensures r.Some? ==> r.value <= ULLONG_MAX
    ensures r.Some? ==> str != [] && IsAsciiDigit(str[0] as int)
  {
    if str == [] then None
    else if StartsWith(str, "0b") then ParseUintegerDigits(str[2..], 2)
    else if StartsWith(str, "0x") then ParseUintegerDigits(str[2..], 16)
    else if str[0] == '0' then ParseUintegerDigits(str, 8)
    else ParseUintegerDigits(str, 10)
  }

  /** `static_cast<long long>` of an `unsigned long long`: two's complement
    * reinterpretation. */
  function ToSigned(u: int): (x: int)
    requires 0 <= u <= ULLONG_MAX
    ensures -0x8000_0000_0000_0000 <= x < 0x8000_0000_0000_0000
    ensures x % 0x1_0000_0000_0000_0000 == u
  {
    if u < 0x8000_0000_0000_0000 then u else u - 0x1_0000_0000_0000_0000
  }

  /** Unsigned negation `-u` of an `unsigned long long`. */
  function NegateUnsigned(u: int): (r: int)
    requires 0 <= u <= ULLONG_MAX
    ensures 0 <= r <= ULLONG_MAX && (u + r) % 0x1_0000_0000_0000_0000 == 0
  {
    if u == 0 then 0 else 0x1_0000_0000_0000_0000 - u
  }

  /** `parse_integer_literal`: a value fits a `long long`, and a literal
    * starts with an ASCII digit or a minus sign followed by one. */
  function ParseIntegerLiteral(str: seq<byte>): (r: Option<int>)
    ensures r.Some? ==> -0x8000_0000_0000_0000 <= r.value < 0x8000_0000_0000_0000
    ensures r.Some? ==> str != [] && (IsAsciiDigit(str[0] as int) || (str[0] == '-' && |str| > 1 && IsAsciiDigit(str[1] as int)))
  {
    if str == [] then None
    else if str[0] == '-' then
      match ParseUintegerLiteral(str[1..])
      case Some(positive) => Some(ToSigned(NegateUnsigned(positive)))
      case None => None
    else
      match ParseUintegerLiteral(str)
      case Some(result) => Some(ToSigned(result))
      case None => None
  }

  lemma {:induction false} DigitsValueOfDecimal(n: nat)
    ensures forall i :: 0 <= i < |ToDecimal(n)| ==> IsDigit(ToDecimal(n)[i], 10)
    ensures DigitsValue(ToDecimal(n), 10) == n
    decreases n
  {
    if n >= 10 {
      DigitsValueOfDecimal(n / 10);
      var s := ToDecimal(n);
      assert s[..|s| - 1] == ToDecimal(n / 10);
    }
  }

  /** Reading back the decimal digits of `n` gives `n` when it fits in
    * `unsigned long long`, and fails otherwise. */
  lemma DecimalRoundTrip(n: nat)
    ensures ParseUintegerLiteral(ToDecimal(n)) == if n <= ULLONG_MAX then Some(n) else None
  {
    var s := ToDecimal(n);
    DigitsValueOfDecimal(n);
    assert MatchDigits(s, 10) == |s| by { MatchAll(s, 10); }
    assert s[..|s|] == s;
    if n == 0 {
      assert s == "0";
      assert !StartsWith(s, "0b") && !StartsWith(s, "0x");
      assert IsDigit(s[0], 8);
      assert MatchDigits(s, 8) == 1;
      assert s[..1] == s;
      assert DigitsValue(s, 8) == 0;
    } else {
      assert !StartsWith(s, "0b") && !StartsWith(s, "0x") by { assert s[0] != '0'; }
    }
  }

  lemma {:induction false} MatchAll(s: seq<byte>, base: int)
    requires IsValidBase(base) && forall i :: 0 <= i < |s| ==> IsDigit(s[i], base)
    ensures MatchDigits(s, base) == |s|
  {
    if s != [] { MatchAll(s[1..], base); }
  }

  /** Reading back `-` and the decimal digits of `n` gives `-n` for every
    * `n` up to 2^63, the least `long long`. */
  lemma NegativeRoundTrip(n: nat)
    requires n <= 0x8000_0000_0000_0000
    ensures ParseIntegerLiteral(['-'] + ToDecimal(n)) == Some(-(n as int))
  {
    DecimalRoundTrip(n);
    assert (['-'] + ToDecimal(n))[1..] == ToDecimal(n);
  }

  /** Decimal digits read back unchanged below 2^63; from 2^63 up to
    * 2^64 - 1 they wrap around to a negative `long long`; beyond that the
    * parse fails. */
  lemma PositiveRoundTrip(n: nat)
    ensures n < 0x8000_0000_0000_0000 ==> ParseIntegerLiteral(ToDecimal(n)) == Some(n as int)
    ensures 0x8000_0000_0000_0000 <= n <= ULLONG_MAX ==>
      ParseIntegerLiteral(ToDecimal(n)) == Some(n - 0x1_0000_0000_0000_0000)
    ensures n > ULLONG_MAX ==> ParseIntegerLiteral(ToDecimal(n)) == None
  {
    DecimalRoundTrip(n);
    assert ToDecimal(n)[0] != '-' by { assert IsAsciiDigit(ToDecimal(n)[0] as int); }
  }

  /** What `to_characters` prints for any `long long` reads back as that
    * value. */
  lemma CharactersRoundTrip(x: int)
    requires -0x8000_0000_0000_0000 <= x < 0x8000_0000_0000_0000
    ensures ParseIntegerLiteral(ToCharacters(x)) == Some(x)
  {
    if x < 0 {
      NegativeRoundTrip(-x);
      assert ToCharacters(x) == ['-'] + ToDecimal(-x);
    } else {
      PositiveRoundTrip(x);
      assert ToCharacters(x) == ToDecimal(x);
    }
  }

  function KindBase(kind: LiteralType): (base: int)
    ensures IsValidBase(base)
  {
    match kind
    case Binary => 2
    case Octal => 8
    case Decimal => 10
    case Hexadecimal => 16
  }

  /** The digits of a matched literal, without its prefix. */
  function LiteralDigits(s: seq<byte>, kind: LiteralType): seq<byte>
  {
    if (kind == Binary || kind == Hexadecimal) && |s| >= 2 then s[2..] else s
  }

  lemma PrefixedLiteralParses(s: seq<byte>, prefix: seq<byte>, base: int)
    requires IsValidBase(base) && |prefix| == 2 && StartsWith(s, prefix) && |s| > 2
    requires forall i :: 2 <= i < |s| ==> IsDigit(s[i], base)
    ensures forall i :: 0 <= i < |s[2..]| ==> IsDigit(s[2..][i], base)
    ensures ParseUintegerDigits(s[2..], base)
      == if DigitsValue(s[2..], base) <= ULLONG_MAX then Some(DigitsValue(s[2..], base)) else None
  {
    var d := s[2..];
    forall i | 0 <= i < |d| ensures IsDigit(d[i], base) { assert d[i] == s[i + 2]; }
    MatchAll(d, base);
    assert d[..|d|] == d;
  }

  lemma UnprefixedLiteralParses(s: seq<byte>, base: int)
    requires IsValidBase(base) && |s| >= 1
    requires forall i :: 0 <= i < |s| ==> IsDigit(s[i], base)
    ensures ParseUintegerDigits(s, base)
      == if DigitsValue(s, base) <= ULLONG_MAX then Some(DigitsValue(s, base)) else None
  {
    MatchAll(s, base);
    assert s[..|s|] == s;
  }

  /** A literal that `match_integer_literal` matches in full is parsed by
    * `parse_uinteger_literal` to the value of its digits in the base its
    * prefix announces, unless that value does not fit. */
  lemma MatchedLiteralParses(s: seq<byte>)
    requires MatchIntegerLiteral(s).status == Ok && MatchIntegerLiteral(s).length == |s|
    ensures MatchIntegerLiteral(s).kind.Some?
    ensures var kind := MatchIntegerLiteral(s).kind.value;
      var digits := LiteralDigits(s, kind);
      var base := KindBase(kind);
      && (forall i :: 0 <= i < |digits| ==> IsDigit(digits[i], base))
      && ParseUintegerLiteral(s)
         == if DigitsValue(digits, base) <= ULLONG_MAX then Some(DigitsValue(digits, base)) else None
  {
    var r := MatchIntegerLiteral(s);
    MatchIntegerLiteralBounds(s);
    match r.kind.value
    case Binary =>
      PrefixedLiteralParses(s, "0b", 2);
    case Hexadecimal =>
      PrefixedLiteralParses(s, "0x", 16);
    case Octal =>
      assert !StartsWith(s, "0b") && !StartsWith(s, "0x");
      UnprefixedLiteralParses(s, 8);
    case Decimal =>
      assert !StartsWith(s, "0b") && !StartsWith(s, "0x");
      UnprefixedLiteralParses(s, 10);
      if s[0] == '0' {
        assert |s| == 1;
        UnprefixedLiteralParses(s, 8);
        assert s[..0] == [];
      }
  }
}
