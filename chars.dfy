/*
 * Character classes and string helpers of the markup compiler.
 *
 * The headers that define these helpers (util/chars.hpp, util/strings.hpp)
 * are not part of this model.  The definitions below are reconstructed so
 * that they agree with every expectation of src/test/cpp/test_chars_strings.cpp;
 * where the tests leave a choice open, README.md says which choice is made.
 */
module Chars {

  /** A UTF-8 code unit (`char8_t`).  Using a subset of `char` lets string
    * literals stand for byte strings. */
  type byte = c: char | c as int < 256 witness 'a'

  const VT: char := '\U{000B}'
  const FF: char := '\U{000C}'

  // ---------------------------------------------------------------------
  // Predicates over code points (they serve the char8_t and char32_t
  // overloads alike; a byte b is passed as `b as int`).

  predicate IsAsciiDigit(c: int) { '0' as int <= c <= '9' as int }
  predicate IsAsciiLowerAlpha(c: int) { 'a' as int <= c <= 'z' as int }
  predicate IsAsciiUpperAlpha(c: int) { 'A' as int <= c <= 'Z' as int }
  predicate IsAsciiAlpha(c: int) { IsAsciiLowerAlpha(c) || IsAsciiUpperAlpha(c) }
  predicate IsAsciiAlphanumeric(c: int) { IsAsciiAlpha(c) || IsAsciiDigit(c) }

  /** ASCII whitespace in the WHATWG sense: tab, line feed, form feed,
    * carriage return and space (no vertical tab). */
  predicate IsAsciiWhitespace(c: int)
  {
    c == '\t' as int || c == '\n' as int || c == FF as int || c == '\r' as int || c == ' ' as int
  }

  /** ASCII blank characters: whitespace plus the vertical tab. */
  predicate IsAsciiBlank(c: int) { IsAsciiWhitespace(c) || c == VT as int }

  /** The markup language's special characters, each of which can be escaped
    * with a preceding backslash. */
  predicate IsMmmlSpecial(c: int)
  {
    c == '\\' as int || c == '[' as int || c == ']' as int || c == '{' as int || c == '}' as int || c == ',' as int
  }

  predicate IsMmmlEscapeable(c: int) { IsMmmlSpecial(c) }

  /** Characters that may appear in a directive name. */
  predicate IsMmmlDirectiveNameCharacter(c: int)
  {
    IsAsciiAlphanumeric(c) || c == '-' as int || c == '_' as int
  }

  /** Characters that may appear in an argument name. */
  predicate IsMmmlArgumentNameCharacter(c: int) { IsMmmlDirectiveNameCharacter(c) }

  predicate IsAscii(c: int) { 0 <= c < 128 }

  lemma DirectiveNameCharactersAreAscii(c: int)
    requires IsMmmlDirectiveNameCharacter(c)
    ensures IsAscii(c) && !IsMmmlSpecial(c) && !IsAsciiWhitespace(c)
  {
  }

  /** Specials are excluded from directive names; letters and digits are in. */
  lemma DirectiveNameCharacterClasses(c: int)
    ensures IsMmmlSpecial(c) ==> !IsMmmlDirectiveNameCharacter(c)
    ensures IsAsciiAlpha(c) ==> IsMmmlDirectiveNameCharacter(c)
    ensures IsAsciiDigit(c) ==> IsMmmlDirectiveNameCharacter(c)
  {
  }

  // ---------------------------------------------------------------------
  // Charset tables.

  const ALL_ASCII_DIGIT: seq<byte> := "0123456789"
  const ALL_ASCII_LOWER_ALPHA: seq<byte> := "abcdefghijklmnopqrstuvwxyz"
  const ALL_ASCII_UPPER_ALPHA: seq<byte> := "ABCDEFGHIJKLMNOPQRSTUVWXYZ"
  const ALL_ASCII_ALPHA: seq<byte> := ALL_ASCII_LOWER_ALPHA + ALL_ASCII_UPPER_ALPHA
  const ALL_ASCII_ALPHANUMERIC: seq<byte> := ALL_ASCII_DIGIT + ALL_ASCII_ALPHA
  const ALL_ASCII_WHITESPACE: seq<byte> := ['\t', '\n', FF, '\r', ' ']
  const ALL_ASCII_BLANK: seq<byte> := ['\t', '\n', VT, FF, '\r', ' ']
  const ALL_MMML_SPECIAL: seq<byte> := "\\[]{},"
  const ALL_MMML_ESCAPEABLE: seq<byte> := ALL_MMML_SPECIAL

  /** `contains(table, c)` of the tests. */
  predicate Contains(table: seq<byte>, c: int)
  {
    exists i :: 0 <= i < |table| && table[i] as int == c
  }

  /** A contiguous range of codes `lo..hi` listed in order. */
  lemma {:induction false} ContainsRange(table: seq<byte>, lo: int, c: int)
    requires forall i :: 0 <= i < |table| ==> table[i] as int == lo + i
    ensures Contains(table, c) <==> lo <= c < lo + |table|
  {
    if lo <= c < lo + |table| {
      assert table[c - lo] as int == c;
    }
  }

  lemma ContainsConcat(a: seq<byte>, b: seq<byte>, c: int)
    ensures Contains(a + b, c) <==> Contains(a, c) || Contains(b, c)
  {
    if Contains(a + b, c) {
      var i :| 0 <= i < |a + b| && (a + b)[i] as int == c;
      if i >= |a| { assert b[i - |a|] as int == c; }
    }
    if Contains(b, c) {
      var i :| 0 <= i < |b| && b[i] as int == c;
      assert (a + b)[|a| + i] as int == c;
    }
    if Contains(a, c) {
      var i :| 0 <= i < |a| && a[i] as int == c;
      assert (a + b)[i] as int == c;
    }
  }

  /** Every table agrees with its predicate on each code 0..127. */
  lemma CharsetTablesAgree(c: int)
    requires 0 <= c < 128
    ensures Contains(ALL_ASCII_DIGIT, c) == IsAsciiDigit(c)
    ensures Contains(ALL_ASCII_LOWER_ALPHA, c) == IsAsciiLowerAlpha(c)
    ensures Contains(ALL_ASCII_UPPER_ALPHA, c) == IsAsciiUpperAlpha(c)
    ensures Contains(ALL_ASCII_ALPHA, c) == IsAsciiAlpha(c)
    ensures Contains(ALL_ASCII_ALPHANUMERIC, c) == IsAsciiAlphanumeric(c)
    ensures Contains(ALL_ASCII_WHITESPACE, c) == IsAsciiWhitespace(c)
    ensures Contains(ALL_ASCII_BLANK, c) == IsAsciiBlank(c)
    ensures Contains(ALL_MMML_ESCAPEABLE, c) == IsMmmlEscapeable(c)
  {
    ContainsRange(ALL_ASCII_DIGIT, '0' as int, c);
    ContainsRange(ALL_ASCII_LOWER_ALPHA, 'a' as int, c);
    ContainsRange(ALL_ASCII_UPPER_ALPHA, 'A' as int, c);
    ContainsConcat(ALL_ASCII_LOWER_ALPHA, ALL_ASCII_UPPER_ALPHA, c);
    ContainsConcat(ALL_ASCII_DIGIT, ALL_ASCII_ALPHA, c);
    SmallTablesAgree(c);
  }

  lemma ContainsAt(table: seq<byte>, i: int)
    requires 0 <= i < |table|
    ensures Contains(table, table[i] as int)
  {
  }

  /** Membership in a table of at most six entries, entry by entry. */
  lemma {:induction false} ContainsSmall(table: seq<byte>, c: int)
    requires 0 < |table| <= 6
    ensures Contains(table, c) <==> table[0] as int == c || Contains(table[1..], c)
  {
    if Contains(table, c) {
      var i :| 0 <= i < |table| && table[i] as int == c;
      if i > 0 { ContainsAt(table[1..], i - 1); }
    }
    if Contains(table[1..], c) {
      var i :| 0 <= i < |table[1..]| && table[1..][i] as int == c;
      ContainsAt(table, i + 1);
    }
    if table[0] as int == c { ContainsAt(table, 0); }
  }

  lemma ContainsEmpty(c: int)
    ensures !Contains([], c)
  {
  }

  lemma SmallTablesAgree(c: int)
    ensures Contains(ALL_ASCII_WHITESPACE, c) == IsAsciiWhitespace(c)
    ensures Contains(ALL_ASCII_BLANK, c) == IsAsciiBlank(c)
    ensures Contains(ALL_MMML_ESCAPEABLE, c) == IsMmmlEscapeable(c)
  {
    var t := ALL_ASCII_WHITESPACE;
    ContainsSmall(t, c); ContainsSmall(t[1..], c); ContainsSmall(t[2..], c);
    ContainsSmall(t[3..], c); ContainsSmall(t[4..], c); ContainsEmpty(c);
    assert t[5..] == [];
    t := ALL_ASCII_BLANK;
    ContainsSmall(t, c); ContainsSmall(t[1..], c); ContainsSmall(t[2..], c);
    ContainsSmall(t[3..], c); ContainsSmall(t[4..], c); ContainsSmall(t[5..], c);
    assert t[6..] == [];
    t := ALL_MMML_SPECIAL;
    ContainsSmall(t, c); ContainsSmall(t[1..], c); ContainsSmall(t[2..], c);
    ContainsSmall(t[3..], c); ContainsSmall(t[4..], c); ContainsSmall(t[5..], c);
    assert t[6..] == [];
  }

  // ---------------------------------------------------------------------
  // Trimming.

  /** Every byte of `s[a..b]` is blank. */
  predicate BlankBetween(s: seq<byte>, a: int, b: int)
    requires 0 <= a <= b <= |s|
  {
    forall k :: a <= k < b ==> IsAsciiBlank(s[k] as int)
  }

  /** The index of the first byte at or after `i` that is not blank, or
    * `|s|`. */
  function FirstNonBlank(s: seq<byte>, i: nat): (n: nat)
    requires i <= |s|
    ensures i <= n <= |s| && BlankBetween(s, i, n)
    ensures n < |s| ==> !IsAsciiBlank(s[n] as int)
    decreases |s| - i
  {
    if i == |s| || !IsAsciiBlank(s[i] as int) then i else FirstNonBlank(s, i + 1)
  }

  /** The index one past the last byte before `j` that is not blank, or
    * 0. */
  function EndOfNonBlank(s: seq<byte>, j: nat): (n: nat)
    requires j <= |s|
    ensures n <= j && BlankBetween(s, n, j)
    ensures n > 0 ==> !IsAsciiBlank(s[n - 1] as int)
  {
    if j == 0 || !IsAsciiBlank(s[j - 1] as int) then j else EndOfNonBlank(s, j - 1)
  }

  /** Removes the leading ASCII blanks. */
  function TrimAsciiBlankLeft(s: seq<byte>): seq<byte>
  {
    s[FirstNonBlank(s, 0)..]
  }

  /** Removes the trailing ASCII blanks. */
  function TrimAsciiBlankRight(s: seq<byte>): seq<byte>
  {
    s[..EndOfNonBlank(s, |s|)]
  }

  /** Removes leading and trailing ASCII blanks. */
  function TrimAsciiBlank(s: seq<byte>): seq<byte>
  {
    TrimAsciiBlankRight(TrimAsciiBlankLeft(s))
  }

  /** The result of `TrimAsciiBlank` is a slice `s[b..e]` of `s` with only
    * blanks cut off on either side, and it neither begins nor ends with a
    * blank. */
  lemma TrimAsciiBlankIsSlice(s: seq<byte>)
    ensures exists b, e :: TrimmedSliceAt(s, b, e, TrimAsciiBlank(s))
  {
    var b := FirstNonBlank(s, 0);
    var l := s[b..];
    var n := EndOfNonBlank(l, |l|);
    assert l[..n] == s[b..b + n];
    assert forall k | b + n <= k < |s| :: s[k] == l[k - b];
    assert n > 0 ==> s[b + n - 1] == l[n - 1];
    assert TrimmedSliceAt(s, b, b + n, TrimAsciiBlank(s));
  }

  /** `r` is `s[b..e]`, only blanks precede and follow it, and it neither
    * begins nor ends with a blank. */
  predicate TrimmedSliceAt(s: seq<byte>, b: int, e: int, r: seq<byte>)
  {
    0 <= b <= e <= |s| && r == s[b..e]
    && BlankBetween(s, 0, b) && BlankBetween(s, e, |s|)
    && (b < e ==> !IsAsciiBlank(s[b] as int) && !IsAsciiBlank(s[e - 1] as int))
  }

  /** The expectations of the `trim_ascii_blank_left` test. */
  lemma TrimLeftExamples()
    ensures TrimAsciiBlankLeft("awoo") == "awoo"
    ensures TrimAsciiBlankLeft(['\n', '\t', VT, FF, '\r', ' '] + "awoo") == "awoo"
    ensures TrimAsciiBlankLeft("awoo" + ['\n', '\t', VT, FF, '\r', ' ']) == "awoo" + ['\n', '\t', VT, FF, '\r', ' ']
    ensures TrimAsciiBlankLeft(['\n', '\t', VT, FF, '\r', ' '] + "awoo" + ['\n', '\t', VT, FF, '\r', ' ']) == "awoo" + ['\n', '\t', VT, FF, '\r', ' ']
  {
    var blanks: seq<byte> := ['\n', '\t', VT, FF, '\r', ' '];
    var awoo: seq<byte> := "awoo";
    assert [] + awoo == awoo && [] + (awoo + blanks) == awoo + blanks;
    assert blanks + awoo + blanks == blanks + (awoo + blanks);
    BlankPrefixTrim([], awoo);
    BlankPrefixTrim(blanks, awoo);
    BlankPrefixTrim([], awoo + blanks);
    BlankPrefixTrim(blanks, awoo + blanks);
  }

  /** The expectations of the `trim_ascii_blank_right` test. */
  lemma TrimRightExamples()
    ensures TrimAsciiBlankRight("awoo") == "awoo"
    ensures TrimAsciiBlankRight("awoo" + ['\n', '\t', VT, FF, '\r', ' ']) == "awoo"
    ensures TrimAsciiBlankRight(['\n', '\t', VT, FF, '\r', ' '] + "awoo") == ['\n', '\t', VT, FF, '\r', ' '] + "awoo"
    ensures TrimAsciiBlankRight(['\n', '\t', VT, FF, '\r', ' '] + "awoo" + ['\n', '\t', VT, FF, '\r', ' ']) == ['\n', '\t', VT, FF, '\r', ' '] + "awoo"
  {
    var blanks: seq<byte> := ['\n', '\t', VT, FF, '\r', ' '];
    var awoo: seq<byte> := "awoo";
    assert awoo + [] == awoo && (blanks + awoo) + [] == blanks + awoo;
    BlankSuffixTrim(awoo, []);
    BlankSuffixTrim(awoo, blanks);
    BlankSuffixTrim(blanks + awoo, []);
    BlankSuffixTrim(blanks + awoo, blanks);
  }

  /** The expectations of the `trim_ascii_blank` test: trimming on the
    * left and then on the right leaves `awoo` in every case. */
  lemma TrimExamples()
    ensures TrimAsciiBlank("awoo") == "awoo"
    ensures TrimAsciiBlank("awoo" + ['\n', '\t', VT, FF, '\r', ' ']) == "awoo"
    ensures TrimAsciiBlank(['\n', '\t', VT, FF, '\r', ' '] + "awoo") == "awoo"
    ensures TrimAsciiBlank(['\n', '\t', VT, FF, '\r', ' '] + "awoo" + ['\n', '\t', VT, FF, '\r', ' ']) == "awoo"
  {
    TrimLeftExamples();
    TrimRightExamples();
  }

  /** `FirstNonBlank` stops at the first byte that is not blank. */
  lemma {:induction false} FirstNonBlankIs(s: seq<byte>, i: nat, n: nat)
    requires i <= n <= |s| && BlankBetween(s, i, n) && (n < |s| ==> !IsAsciiBlank(s[n] as int))
    ensures FirstNonBlank(s, i) == n
    decreases n - i
  {
    if i < n {
      FirstNonBlankIs(s, i + 1, n);
    }
  }

  /** `EndOfNonBlank` stops after the last byte that is not blank. */
  lemma {:induction false} EndOfNonBlankIs(s: seq<byte>, j: nat, n: nat)
    requires n <= j <= |s| && BlankBetween(s, n, j) && (n > 0 ==> !IsAsciiBlank(s[n - 1] as int))
    ensures EndOfNonBlank(s, j) == n
    decreases j - n
  {
    if n < j {
      EndOfNonBlankIs(s, j - 1, n);
    }
  }

  /** Blanks followed by something that does not start with a blank are
    * cut off exactly. */
  lemma BlankPrefixTrim(blanks: seq<byte>, rest: seq<byte>)
    requires BlankBetween(blanks, 0, |blanks|)
    requires rest != [] ==> !IsAsciiBlank(rest[0] as int)
    ensures TrimAsciiBlankLeft(blanks + rest) == rest
  {
    var s := blanks + rest;
    assert forall k | 0 <= k < |blanks| :: s[k] == blanks[k];
    assert rest != [] ==> s[|blanks|] == rest[0];
    FirstNonBlankIs(s, 0, |blanks|);
    assert s[|blanks|..] == rest;
  }

  /** Something that does not end with a blank followed by blanks: the
    * blanks are cut off exactly. */
  lemma BlankSuffixTrim(rest: seq<byte>, blanks: seq<byte>)
    requires BlankBetween(blanks, 0, |blanks|)
    requires rest != [] ==> !IsAsciiBlank(rest[|rest| - 1] as int)
    ensures TrimAsciiBlankRight(rest + blanks) == rest
  {
    var s := rest + blanks;
    assert forall k | |rest| <= k < |s| :: s[k] == blanks[k - |rest|];
    assert rest != [] ==> s[|rest| - 1] == rest[|rest| - 1];
    EndOfNonBlankIs(s, |s|, |rest|);
    assert s[..|rest|] == rest;
  }

  // ---------------------------------------------------------------------
  // HTML name predicates.

  /** A tag name: an ASCII letter followed by ASCII letters, digits and
    * hyphens. */
  predicate IsHtmlTagName(s: seq<byte>)
  {
    |s| > 0 && IsAsciiAlpha(s[0] as int)
    && forall i :: 1 <= i < |s| ==> IsAsciiAlphanumeric(s[i] as int) || s[i] == '-'
  }

  /** A byte the HTML standard forbids in an attribute name: controls,
    * whitespace, quotes, `>`, `/` and `=`. */
  predicate IsHtmlAttributeNameExcluded(c: int)
  {
    c < 0x20 || c == 0x7F || c == ' ' as int || c == '"' as int || c == '\'' as int
    || c == '>' as int || c == '/' as int || c == '=' as int
  }

  predicate IsHtmlAttributeName(s: seq<byte>)
  {
    |s| > 0 && forall i :: 0 <= i < |s| ==> !IsHtmlAttributeNameExcluded(s[i] as int)
  }

  /** A byte the HTML standard forbids in an unquoted attribute value:
    * whitespace, quotes, `=`, `<`, `>` and the backtick. */
  predicate IsHtmlUnquotedExcluded(c: int)
  {
    IsAsciiWhitespace(c) || c == '"' as int || c == '\'' as int || c == '=' as int
    || c == '<' as int || c == '>' as int || c == '`' as int
  }

  predicate IsHtmlUnquotedAttributeValue(s: seq<byte>)
  {
    forall i :: 0 <= i < |s| ==> !IsHtmlUnquotedExcluded(s[i] as int)
  }

  // The expectations of the HTML predicate tests.

  lemma HtmlTagNameExamples()
    ensures IsHtmlTagName("tag") && IsHtmlTagName("tag-") && IsHtmlTagName("tag-tag")
    ensures !IsHtmlTagName("") && !IsHtmlTagName("-") && !IsHtmlTagName("-tag")
  {
  }

  lemma HtmlAttributeNameExamples()
    ensures IsHtmlAttributeName("attr") && IsHtmlAttributeName("attr-")
    ensures IsHtmlAttributeName("data-attr") && IsHtmlAttributeName("att<(){}[]&ss")
    ensures !IsHtmlAttributeName("") && !IsHtmlAttributeName("attr=") && !IsHtmlAttributeName("at>tr")
  {
    assert "attr="[4] == '=';
    assert "at>tr"[2] == '>';
  }

  lemma HtmlUnquotedAttributeValueExamples()
    ensures IsHtmlUnquotedAttributeValue("") && IsHtmlUnquotedAttributeValue("value")
    ensures IsHtmlUnquotedAttributeValue("hyphen-value")
    ensures !IsHtmlUnquotedAttributeValue("a b") && !IsHtmlUnquotedAttributeValue("attr=")
    ensures !IsHtmlUnquotedAttributeValue("at>tr") && !IsHtmlUnquotedAttributeValue("'val'")
    ensures !IsHtmlUnquotedAttributeValue("\"val\"")
  {
    assert "attr="[4] == '=';
    assert "at>tr"[2] == '>';
    assert "a b"[1] == ' ';
    assert "'val'"[0] == '\'';
    assert "\"val\""[0] == '"';
  }

  // ---------------------------------------------------------------------
  // Decimal digits (`to_characters`, whose header is not part of this
  // model, is taken to print base 10 without leading zeros).

  function DigitChar(d: int): byte
    requires 0 <= d < 10
  {
    ('0' as int + d) as char
  }

  /** The decimal digits of `n`, most significant first. */
  function ToDecimal(n: nat): (s: seq<byte>)
    ensures |s| >= 1 && forall i :: 0 <= i < |s| ==> IsAsciiDigit(s[i] as int)
    ensures (s[0] == '0') <==> n == 0
    decreases n
  {
    if n < 10 then [DigitChar(n)] else ToDecimal(n / 10) + [DigitChar(n % 10)]
  }

  /** The characters of a signed integer: a `-` before the digits of a
    * negative number. */
  function ToCharacters(x: int): (s: seq<byte>)
    ensures |s| >= 1 && (s[0] == '-' <==> x < 0)
    ensures forall i | 1 <= i < |s| :: IsAsciiDigit(s[i] as int)
  {
    if x < 0 then ['-'] + ToDecimal(-x) else ToDecimal(x)
  }
}
