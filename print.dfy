/*
 * Building diagnostic text, src/main/cpp/print.cpp: finding the source
 * line a position is on, the cited line with its caret marker, file
 * positions, cutting node text off for AST dumps, the ANSI colour of
 * each `Diagnostic_Highlight`, and the indentation of the AST printer.
 *
 * The output is a `Diagnostic_String`, an annotated string whose spans
 * are typed by `Diagnostic_Highlight`.  `size_t` arithmetic is written
 * out where it wraps (`find_line`).
 */
module Printing {
  import opened Options
  import opened Chars
  import Highlight
  import opened AnnotatedStrings
  import opened Instructions
  import ParseUtils
  import PS = ParseSpec

  /** `Diagnostic_Highlight`, in the order of the switch of
    * `diagnostic_highlight_ansi_sequence` (its header is not part of this
    * model). */
  datatype DiagnosticHighlight =
    | Text | CodeCitation | Punctuation | Op | CodePosition | Internal | ErrorText | Error
    | Warning | LineNumber | Note | PositionIndicator | InternalErrorNotice | Operand | Tag
    | Attribute | Escape

  type DiagnosticString = AnnotatedString<DiagnosticHighlight>

  // ---------------------------------------------------------------------
  // Colours.

  /** The escape sequences of the ANSI header (not part of this model),
    * by name. */
  datatype AnsiSequence = Reset | HBlack | HRed | HYellow | HWhite | HGreen | HMagenta | HBlue

  /** `diagnostic_highlight_ansi_sequence`. */
  function AnsiSequenceOf(t: DiagnosticHighlight): AnsiSequence
  {
    match t
    case Text | CodeCitation | Punctuation | Op => Reset
    case CodePosition | Internal => HBlack
    case ErrorText | Error => HRed
    case Warning | LineNumber => HYellow
    case Note => HWhite
    case PositionIndicator => HGreen
    case InternalErrorNotice => HYellow
    case Operand => HMagenta
    case Tag => HBlue
    case Attribute => HMagenta
    case Escape => HYellow
  }

  /** Which highlights share each colour: plain text, code and punctuation
    * are printed uncoloured; errors in red; positions and internal notes
    * in black; warnings, line numbers, escapes and the internal error
    * notice in yellow; operands and attributes in magenta. */
  lemma AnsiColourClasses(t: DiagnosticHighlight)
    ensures AnsiSequenceOf(t) == Reset <==> t in {DiagnosticHighlight.Text, CodeCitation, Punctuation, Op}
    ensures AnsiSequenceOf(t) == HRed <==> t in {ErrorText, Error}
    ensures AnsiSequenceOf(t) == HBlack <==> t in {CodePosition, Internal}
    ensures AnsiSequenceOf(t) == HYellow <==> t in {Warning, LineNumber, InternalErrorNotice, DiagnosticHighlight.Escape}
    ensures AnsiSequenceOf(t) == HMagenta <==> t in {Operand, Attribute}
    ensures AnsiSequenceOf(t) == HWhite <==> t == Note
    ensures AnsiSequenceOf(t) == HGreen <==> t == PositionIndicator
    ensures AnsiSequenceOf(t) == HBlue <==> t == Tag
  {
  }

  // ---------------------------------------------------------------------
  // `find_line`.

  const SIZE_MODULUS: nat := 0x1_0000_0000_0000_0000
  /** `std::u8string_view::npos`, the largest `size_t`. */
  const NPOS: nat := SIZE_MODULUS - 1

  /** `size_t` addition, which wraps around. */
  function SizeAdd(a: nat, b: nat): nat
    requires a < SIZE_MODULUS && b < SIZE_MODULUS
  {
    if a + b < SIZE_MODULUS then a + b else a + b - SIZE_MODULUS
  }

  /** `size_t` subtraction, which wraps around. */
  function SizeSub(a: nat, b: nat): nat
    requires a < SIZE_MODULUS && b < SIZE_MODULUS
  {
    if b <= a then a - b else a - b + SIZE_MODULUS
  }

  /** Both are arithmetic modulo 2^64; adding `npos` subtracts one. */
  lemma SizeArithmeticWraps(a: nat, b: nat)
    requires a < SIZE_MODULUS && b < SIZE_MODULUS
    ensures SizeAdd(a, b) == (a + b) % SIZE_MODULUS && SizeSub(a, b) == (a - b) % SIZE_MODULUS
    ensures SizeAdd(a, NPOS) == if a == 0 then NPOS else a - 1
    ensures SizeSub(a, b) < SIZE_MODULUS && SizeAdd(SizeSub(a, b), b) == a
  {
  }

  /** The index of the last `\n` in `s[..e]`, or -1. */
  function LastNewlineBefore(s: seq<char>, e: nat): (r: int)
    requires e <= |s|
    ensures -1 <= r < e
    ensures r >= 0 ==> s[r] == '\n'
    ensures forall k | r < k < e :: s[k] != '\n'
  {
    if e == 0 then -1 else if s[e - 1] == '\n' then e - 1 else LastNewlineBefore(s, e - 1)
  }

  /** The index of the first `\n` in `s[i..]`, or `|s|`. */
  function FirstNewlineFrom(s: seq<char>, i: nat): (r: nat)
    requires i <= |s|
    ensures i <= r <= |s|
    ensures r < |s| ==> s[r] == '\n'
    ensures forall k | i <= k < r :: s[k] != '\n'
    decreases |s| - i
  {
    if i == |s| then |s| else if s[i] == '\n' then i else FirstNewlineFrom(s, i + 1)
  }

  /** `rfind('\n', pos)`: the last `\n` at or before `pos`, or `npos`. */
  function RFindNewline(s: seq<char>, pos: nat): nat
  {
    if s == [] then NPOS
    else
      var r := LastNewlineBefore(s, if pos < |s| then pos + 1 else |s|);
      if r < 0 then NPOS else r
  }

  /** `find('\n', pos)`: the first `\n` at or after `pos`, or `npos`. */
  function FindNewline(s: seq<char>, pos: nat): nat
  {
    if pos >= |s| then NPOS
    else
      var r := FirstNewlineFrom(s, pos);
      if r == |s| then NPOS else r
  }

  /** `substr(pos, count)` for `pos <= size()`: at most `count` bytes. */
  function Substr(s: seq<char>, pos: nat, count: nat): (r: seq<char>)
    requires pos <= |s|
    ensures |r| <= count && pos + |r| <= |s| && r == s[pos..pos + |r|]
  {
    if count <= |s| - pos then s[pos..pos + count] else s[pos..]
  }

  /** `find_line` as written: it asserts `index <= size()`, and steps back
    * one byte at the end of the source or on a `\n`, which wraps around
    * `size_t` when `index` is 0. Whatever it yields is a run of bytes
    * without a `\n`. */
  function FindLineAsWritten(source: seq<char>, index: nat): (line: seq<char>)
    requires index <= |source| < NPOS
    ensures |line| <= |source|
    ensures forall k | 0 <= k < |line| :: line[k] != '\n'
  {
    var i := if index == |source| || source[index] == '\n' then SizeAdd(index, NPOS) else index;
    LineSlice(source, RFindNewline(source, i), FindNewline(source, SizeAdd(i, 1)))
  }

  /** The rest of `find_line`, from the results of `rfind` and `find`:
    * `substr` of the bytes between them, the count wrapping around. The
    * result is the bytes right after the `\n` at `r` (or from the start),
    * and no more than reach the `\n` at `f` when that lies past `r`. */
  function LineSlice(source: seq<char>, r: nat, f: nat): (line: seq<char>)
    requires |source| < NPOS && (r == NPOS || r < |source|)
    ensures var b := if r != NPOS then r + 1 else 0;
      b + |line| <= |source| && line == source[b..b + |line|]
      && (b <= Min(f, |source|) ==> b + |line| == Min(f, |source|))
  {
    var begin := if r != NPOS then r + 1 else 0;
    var end := Min(f, |source|);
    Substr(source, begin, SizeSub(end, begin))
  }

  function Min(a: nat, b: nat): nat { if a <= b then a else b }

  /** Where the line of `index` begins: after the last `\n` before it. */
  function LineBegin(source: seq<char>, index: nat): nat
    requires index <= |source|
  {
    LastNewlineBefore(source, index) + 1
  }

  /** `find_line` as intended: the line `index` is on, without its `\n`;
    * at the end of the source or on a `\n`, the line ending there. */
  function FindLine(source: seq<char>, index: nat): (line: seq<char>)
    requires index <= |source|
    ensures var b, e := LineBegin(source, index), FirstNewlineFrom(source, index);
      b <= index <= e && line == source[b..e]
      && (b == 0 || source[b - 1] == '\n') && (e == |source| || source[e] == '\n')
      && forall k | 0 <= k < |line| :: line[k] != '\n'
  {
    source[LineBegin(source, index)..FirstNewlineFrom(source, index)]
  }

  /** As written, `find_line` yields the intended line for every position
    * except position 0 of a source whose first byte is `\n`. */
  lemma FindLineAgrees(source: seq<char>, index: nat)
    requires index <= |source| < NPOS
    requires !(index == 0 && source != [] && source[0] == '\n')
    ensures FindLineAsWritten(source, index) == FindLine(source, index)
  {
    if source == [] {
      assert FindLineAsWritten(source, index) == LineSlice(source, NPOS, NPOS);
      LineSliceIs(source, 0, 0, NPOS);
    } else if index == |source| || source[index] == '\n' {
      FindLineAgreesSteppingBack(source, index);
    } else {
      FindLineAgreesWithin(source, index);
    }
  }

  /** At the end of the source or on a `\n`, past position 0. */
  lemma FindLineAgreesSteppingBack(source: seq<char>, index: nat)
    requires 0 < index <= |source| < NPOS
    requires index == |source| || source[index] == '\n'
    ensures FindLineAsWritten(source, index) == source[LineBegin(source, index)..FirstNewlineFrom(source, index)]
  {
    var begin, end := LineBegin(source, index), FirstNewlineFrom(source, index);
    var r := if begin == 0 then NPOS else begin - 1;
    var f := FindNewline(source, index);
    assert FindLineAsWritten(source, index) == LineSlice(source, RFindNewline(source, index - 1), f);
    assert RFindNewline(source, index - 1) == r by { RFindBefore(source, index); }
    assert Min(f, |source|) == end by { FindNewlineOn(source, index); }
    LineSliceIs(source, begin, end, f);
  }

  /** On any other byte. */
  lemma FindLineAgreesWithin(source: seq<char>, index: nat)
    requires index < |source| < NPOS && source[index] != '\n'
    ensures FindLineAsWritten(source, index) == source[LineBegin(source, index)..FirstNewlineFrom(source, index)]
  {
    var begin, end := LineBegin(source, index), FirstNewlineFrom(source, index);
    var f := FindNewline(source, index + 1);
    var r := RFindNewline(source, index);
    assert FindLineAsWritten(source, index) == LineSlice(source, r, f);
    assert r == if begin == 0 then NPOS else begin - 1 by { RFindAt(source, index); }
    assert Min(f, |source|) == end by { FindNewlineAfter(source, index); }
    LineSliceIs(source, begin, end, f);
  }

  /** `find` from the end of the source or from a `\n` stops right there. */
  lemma FindNewlineOn(source: seq<char>, index: nat)
    requires index <= |source| < NPOS
    requires index == |source| || source[index] == '\n'
    ensures Min(FindNewline(source, index), |source|) == FirstNewlineFrom(source, index) == index
  {
  }

  /** `find` from the byte after one that is not `\n` finds the end of
    * its line. */
  lemma FindNewlineAfter(source: seq<char>, index: nat)
    requires index < |source| < NPOS && source[index] != '\n'
    ensures Min(FindNewline(source, index + 1), |source|) == FirstNewlineFrom(source, index)
  {
    assert FirstNewlineFrom(source, index) == FirstNewlineFrom(source, index + 1);
  }

  /** `rfind` from the byte before `index` finds the `\n` that ends the
    * previous line, if there is one. */
  lemma RFindBefore(source: seq<char>, index: nat)
    requires 0 < index <= |source|
    ensures RFindNewline(source, index - 1) == if LineBegin(source, index) == 0 then NPOS else LineBegin(source, index) - 1
  {
  }

  /** `rfind` from a byte other than `\n` does the same. */
  lemma RFindAt(source: seq<char>, index: nat)
    requires index < |source| && source[index] != '\n'
    ensures RFindNewline(source, index) == if LineBegin(source, index) == 0 then NPOS else LineBegin(source, index) - 1
  {
    assert LastNewlineBefore(source, index + 1) == LastNewlineBefore(source, index);
  }

  lemma LineSliceIs(source: seq<char>, begin: nat, end: nat, f: nat)
    requires begin <= end <= |source| < NPOS && (begin == 0 || begin - 1 < |source|) && Min(f, |source|) == end
    ensures LineSlice(source, if begin == 0 then NPOS else begin - 1, f) == source[begin..end]
  {
  }

  /** On `"\nab"` at position 0, the line that the first `\n` ends is
    * empty, but `find_line` steps back to `size_t(-1)`, takes the last `\n`
    * of the whole source for the line start and wraps the length, and so
    * yields `"ab"`. */
  lemma FindLineAtLeadingNewline()
    ensures FindLineAsWritten("\nab", 0) == "ab"
    ensures FindLine("\nab", 0) == ""
  {
    var s: seq<char> := "\nab";
    assert LastNewlineBefore(s, 3) == 0;
    assert RFindNewline(s, NPOS) == 0;
    assert FindNewline(s, 0) == 0;
    assert FirstNewlineFrom(s, 0) == 0;
  }

  // ---------------------------------------------------------------------
  // Pieces of diagnostic text.

  /** One append to the diagnostic string: its text and, for a typed
    * append, its highlight. */
  datatype Piece = Piece(text: seq<char>, kind: Option<DiagnosticHighlight>)

  /** The text a list of pieces appends. */
  function PiecesText(ps: seq<Piece>): seq<char>
  {
    if ps == [] then [] else PiecesText(ps[..|ps| - 1]) + ps[|ps| - 1].text
  }

  /** The spans a list of pieces appends after `start` bytes of text: one
    * per typed piece that is not empty. */
  function PiecesSpans(start: nat, ps: seq<Piece>): seq<Highlight.Span<DiagnosticHighlight>>
  {
    if ps == [] then []
    else
      var init := ps[..|ps| - 1];
      var p := ps[|ps| - 1];
      PiecesSpans(start, init) + PieceSpans(start + |PiecesText(init)|, p)
  }

  /** The span one piece appends at `at`: one when it is typed and not
    * empty. */
  function PieceSpans(at: nat, p: Piece): seq<Highlight.Span<DiagnosticHighlight>>
  {
    if p.kind.Some? && p.text != [] then [Highlight.Span(at, |p.text|, p.kind.value)] else []
  }

  lemma PiecesSnoc(start: nat, ps: seq<Piece>, p: Piece)
    ensures PiecesText(ps + [p]) == PiecesText(ps) + p.text
    ensures PiecesSpans(start, ps + [p]) == PiecesSpans(start, ps) + PieceSpans(start + |PiecesText(ps)|, p)
  {
    assert (ps + [p])[..|ps|] == ps;
  }

  /** The spans lie, in order, within the text appended. */
  lemma {:induction false} PiecesSpansWithin(start: nat, ps: seq<Piece>)
    ensures Highlight.Ascending(PiecesSpans(start, ps))
    ensures forall k | 0 <= k < |PiecesSpans(start, ps)| ::
      start <= PiecesSpans(start, ps)[k].begin && PiecesSpans(start, ps)[k].End() <= start + |PiecesText(ps)|
  {
    if ps != [] {
      PiecesSpansWithin(start, ps[..|ps| - 1]);
    }
  }

  /** Appending one more piece keeps the text and the spans those of the
    * pieces appended so far. */
  lemma AppendKeeps(oldText: seq<char>, oldSpans: seq<Highlight.Span<DiagnosticHighlight>>, start: nat, done: seq<Piece>, p: Piece,
                    text: seq<char>, spans: seq<Highlight.Span<DiagnosticHighlight>>)
    requires start == |oldText|
    requires text == oldText + PiecesText(done) && spans == oldSpans + PiecesSpans(start, done)
    ensures text + p.text == oldText + PiecesText(done + [p])
    ensures spans + PieceSpans(|text|, p) == oldSpans + PiecesSpans(start, done + [p])
  {
    var at := |text|;
    assert at == start + |PiecesText(done)|;
    PiecesSnoc(start, done, p);
    Associative(oldText, PiecesText(done), p.text);
    Associative(oldSpans, PiecesSpans(start, done), PieceSpans(at, p));
  }

  lemma Associative<T>(a: seq<T>, b: seq<T>, c: seq<T>)
    ensures (a + b) + c == a + (b + c)
  {
  }

  /** A typed piece with no text, which the typed `append` asserts
    * against. */
  predicate EmptyTyped(p: Piece)
  {
    p.kind.Some? && p.text == []
  }

  /** The position of the first typed piece with no text, or `|ps|`. */
  function FirstEmptyTyped(ps: seq<Piece>): (n: nat)
    ensures n <= |ps| && (n < |ps| ==> EmptyTyped(ps[n]))
    ensures forall k | 0 <= k < n :: !EmptyTyped(ps[k])
  {
    if ps == [] then 0
    else if EmptyTyped(ps[0]) then 0
    else
      var n := FirstEmptyTyped(ps[1..]);
      assert forall k | 1 <= k < n + 1 :: ps[k] == ps[1..][k - 1];
      n + 1
  }

  /** Appends one piece, typed or not. */
  method AppendPiece(out: DiagnosticString, p: Piece)
    requires !EmptyTyped(p)
    modifies out
    ensures out.text == old(out.text) + p.text
    ensures out.spans == old(out.spans) + PieceSpans(|old(out.text)|, p)
  {
    if p.kind.Some? {
      out.AppendTyped(p.text, p.kind.value);
    } else {
      out.Append(p.text);
    }
  }

  /** Appends one more piece after those appended so far. */
  method AppendNext(out: DiagnosticString, p: Piece, ghost oldText: seq<char>, ghost oldSpans: seq<Highlight.Span<DiagnosticHighlight>>,
                    ghost start: nat, ghost done: seq<Piece>)
    requires start == |oldText| && !EmptyTyped(p)
    requires out.text == oldText + PiecesText(done) && out.spans == oldSpans + PiecesSpans(start, done)
    modifies out
    ensures out.text == oldText + PiecesText(done + [p])
    ensures out.spans == oldSpans + PiecesSpans(start, done + [p])
  {
    AppendKeeps(oldText, oldSpans, start, done, p, out.text, out.spans);
    AppendPiece(out, p);
  }

  /** Appends the pieces in order; the first typed piece with no text
    * fails the typed `append`'s assertion, and `crashed` tells it did. */
  method AppendPieces(out: DiagnosticString, ps: seq<Piece>) returns (crashed: bool)
    modifies out
    ensures crashed <==> FirstEmptyTyped(ps) < |ps|
    ensures out.text == old(out.text) + PiecesText(ps[..FirstEmptyTyped(ps)])
    ensures out.spans == old(out.spans) + PiecesSpans(|old(out.text)|, ps[..FirstEmptyTyped(ps)])
  {
    ghost var oldText, oldSpans := out.text, out.spans;
    ghost var start := |oldText|;
    for k := 0 to |ps|
      invariant k <= FirstEmptyTyped(ps)
      invariant out.text == oldText + PiecesText(ps[..k])
      invariant out.spans == oldSpans + PiecesSpans(start, ps[..k])
    {
      if EmptyTyped(ps[k]) {
        return true;
      }
      AppendNext(out, ps[k], oldText, oldSpans, start, ps[..k]);
      assert ps[..k + 1] == ps[..k] + [ps[k]];
    }
    assert ps[..|ps|] == ps;
    return false;
  }

  // ---------------------------------------------------------------------
  // The cited line with its caret marker.

  /** The gutter before the line number: `6 - min(digits, 5)` spaces. */
  function PadLength(digits: nat): nat
  {
    6 - Min(digits, 5)
  }

  /** The blank gutter before the marker: `max(6, digits + 1)` spaces. */
  function AlignLength(digits: nat): nat
  {
    if 6 >= digits + 1 then 6 else digits + 1
  }

  /** The two gutters have the same width, so the marker line's columns
    * line up with the cited line's. */
  lemma GuttersAlign(digits: nat)
    requires digits >= 1
    ensures PadLength(digits) + digits == AlignLength(digits)
  {
  }

  /** The cited code, as `find_line` finds it, as written or corrected. */
  function CitedCode(source: seq<char>, begin: nat, rev: PS.Revision): seq<char>
    requires begin <= |source| < NPOS
  {
    if rev == PS.AsWritten then FindLineAsWritten(source, begin) else FindLine(source, begin)
  }

  /** The cited code's piece: typed as written; typed only when there is
    * some code as corrected. */
  function CitedPiece(code: seq<char>, rev: PS.Revision): Piece
  {
    if rev == PS.AsWritten || code != [] then Piece(code, Some(CodeCitation)) else Piece(code, None)
  }

  /** What `do_print_affected_line` appends, piece by piece. */
  function AffectedLinePieces(source: seq<char>, begin: nat, length: nat, line: nat, column: nat, rev: PS.Revision)
    : (ps: seq<Piece>)
    requires begin <= |source| < NPOS && length > 0
    ensures |ps| == 14
  {
    var number := ToCharacters(line + 1);
    [ Piece(Repeat(PadLength(|number|), ' '), None), Piece(number, Some(LineNumber)),
      Piece(" ", None), Piece("|", Some(Punctuation)), Piece(" ", None),
      CitedPiece(CitedCode(source, begin, rev), rev), Piece("\n", None),
      Piece(Repeat(AlignLength(|number|), ' '), None), Piece(" ", None), Piece("|", Some(Punctuation)),
      Piece(" ", None), Piece(Repeat(column, ' '), None),
      Piece(['^'] + Repeat(length - 1, '~'), Some(PositionIndicator)), Piece("\n", None) ]
  }

  /** The two lines `do_print_affected_line` prints: the gutter, the line
    * number, `|` and the cited line; then a blank gutter of the same
    * width, `|`, `column` spaces and the marker, `^` followed by
    * `length - 1` `~`. */
  lemma AffectedLineLayout(source: seq<char>, begin: nat, length: nat, line: nat, column: nat, rev: PS.Revision)
    requires begin <= |source| < NPOS && length > 0
    ensures var ps := AffectedLinePieces(source, begin, length, line, column, rev);
      var gutter := |ps[0].text| + |ps[1].text|;
      gutter == |ps[7].text| && |ps[11].text| == column
      && ps[5].text == CitedCode(source, begin, rev)
      && ps[12].text[0] == '^' && |ps[12].text| == length
      && forall k | 1 <= k < length :: ps[12].text[k] == '~'
  {
    GuttersAlign(|ToCharacters(line + 1)|);
  }

  /** `do_print_affected_line`, which asserts `length > 0` and that a span
    * longer than 1 does not cross a line (`find_line` asserts that
    * `begin <= size()`); `crashed` tells a typed `append` failed its
    * assertion. */
  method DoPrintAffectedLine(out: DiagnosticString, source: seq<char>, begin: nat, length: nat, line: nat, column: nat,
                             rev: PS.Revision)
    returns (crashed: bool)
    requires begin <= |source| < NPOS && length > 0
    requires length <= 1 || forall k | begin <= k < |source| && k < begin + length :: source[k] != '\n'
    modifies out
    ensures var ps := AffectedLinePieces(source, begin, length, line, column, rev);
      && (crashed <==> FirstEmptyTyped(ps) < |ps|)
      && out.text == old(out.text) + PiecesText(ps[..FirstEmptyTyped(ps)])
      && out.spans == old(out.spans) + PiecesSpans(|old(out.text)|, ps[..FirstEmptyTyped(ps)])
  {
    crashed := AppendPieces(out, AffectedLinePieces(source, begin, length, line, column, rev));
  }

  /** As written, printing the affected line fails exactly when the
    * cited line is empty; as corrected, it never fails. */
  lemma AffectedLineCrashes(source: seq<char>, begin: nat, length: nat, line: nat, column: nat, rev: PS.Revision)
    requires begin <= |source| < NPOS && length > 0
    ensures var ps := AffectedLinePieces(source, begin, length, line, column, rev);
      FirstEmptyTyped(ps) < |ps| <==> rev == PS.AsWritten && FindLineAsWritten(source, begin) == []
  {
    var ps := AffectedLinePieces(source, begin, length, line, column, rev);
    var n := FirstEmptyTyped(ps);
    if rev == PS.AsWritten && FindLineAsWritten(source, begin) == [] {
      assert EmptyTyped(ps[5]);
    } else {
      assert !EmptyTyped(ps[5]);
      OnlyCitedMayBeEmpty(source, begin, length, line, column, rev);
    }
  }

  /** Every typed piece but the cited code has some text. */
  lemma OnlyCitedMayBeEmpty(source: seq<char>, begin: nat, length: nat, line: nat, column: nat, rev: PS.Revision)
    requires begin <= |source| < NPOS && length > 0
    ensures var ps := AffectedLinePieces(source, begin, length, line, column, rev);
      forall k | 0 <= k < |ps| && k != 5 :: !EmptyTyped(ps[k])
  {
    var ps := AffectedLinePieces(source, begin, length, line, column, rev);
    assert ps[1].text == ToCharacters(line + 1);
    assert ps[12].text[0] == '^';
  }

  /** On a line with nothing on it the cited code is empty, and the typed
    * `append` of it asserts a non-empty text: as written,
    * `do_print_affected_line` fails its assertion for a position on an
    * empty line, here the position 2 of `"a\n\nb"`, after the gutter, the
    * line number and the `|`. */
  lemma EmptyCitedLine()
    ensures FirstEmptyTyped(AffectedLinePieces("a\n\nb", 2, 1, 1, 0, PS.AsWritten)) == 5
  {
    var s: seq<char> := "a\n\nb";
    assert SizeAdd(2, NPOS) == 1;
    assert RFindNewline(s, 1) == 1;
    assert FindNewline(s, 2) == 2;
    assert FindLineAsWritten(s, 2) == [];
    var ps := AffectedLinePieces(s, 2, 1, 1, 0, PS.AsWritten);
    assert EmptyTyped(ps[5]);
    assert forall k | 0 <= k < 5 :: !EmptyTyped(ps[k]);
  }

  /** As corrected, every piece is appended and every span the affected
    * line produces is non-empty, whatever the line. */
  lemma CitedLineSpansNonEmpty(source: seq<char>, begin: nat, length: nat, line: nat, column: nat, start: nat)
    requires begin <= |source| < NPOS && length > 0
    ensures var ps := AffectedLinePieces(source, begin, length, line, column, PS.Corrected);
      FirstEmptyTyped(ps) == |ps|
      && forall k | 0 <= k < |PiecesSpans(start, ps)| :: PiecesSpans(start, ps)[k].length > 0
  {
    AffectedLineCrashes(source, begin, length, line, column, PS.Corrected);
    PiecesSpansNonEmpty(start, AffectedLinePieces(source, begin, length, line, column, PS.Corrected));
  }

  lemma {:induction false} PiecesSpansNonEmpty(start: nat, ps: seq<Piece>)
    ensures forall k | 0 <= k < |PiecesSpans(start, ps)| :: PiecesSpans(start, ps)[k].length > 0
  {
    if ps != [] {
      PiecesSpansNonEmpty(start, ps[..|ps| - 1]);
    }
  }

  // ---------------------------------------------------------------------
  // File positions.

  /** What `print_file_position` appends, all of it as one
    * `code_position` span: `file:line:column`, one-based, and a trailing
    * `:` when asked for. */
  function FilePositionText(file: seq<char>, line: nat, column: nat, colonSuffix: bool): (s: seq<char>)
    ensures |s| > 0
  {
    file + ":" + ToCharacters(line + 1) + ":" + ToCharacters(column + 1) + (if colonSuffix then ":" else "")
  }

  /** `print_file_position`, through a `Scoped_Builder`. */
  method PrintFilePosition(out: DiagnosticString, file: seq<char>, line: nat, column: nat, colonSuffix: bool)
    modifies out
    ensures out.text == old(out.text) + FilePositionText(file, line, column, colonSuffix)
    ensures out.spans == old(out.spans) + [Highlight.Span(|old(out.text)|, |FilePositionText(file, line, column, colonSuffix)|, CodePosition)]
  {
    var builder := new ScopedBuilder(out, CodePosition);
    AppendFilePosition(builder, file, line, column, colonSuffix);
    var crashed := builder.End();
    assert !crashed;
  }

  /** The appends of `print_file_position` inside its builder's scope. */
  method AppendFilePosition(builder: ScopedBuilder<DiagnosticHighlight>, file: seq<char>, line: nat, column: nat,
                            colonSuffix: bool)
    modifies builder.owner
    ensures builder.owner.text == old(builder.owner.text) + FilePositionText(file, line, column, colonSuffix)
    ensures builder.owner.spans == old(builder.owner.spans)
  {
    ghost var t0 := builder.owner.text;
    ghost var a, b := IntegerText(line + 1, NegativeOnly), IntegerText(column + 1, NegativeOnly);
    builder.Append(file);
    builder.Append(":");
    assert builder.owner.text == t0 + (file + ":");
    builder.AppendInteger(line + 1, NegativeOnly);
    assert builder.owner.text == t0 + (file + ":" + a);
    builder.Append(":");
    assert builder.owner.text == t0 + (file + ":" + a + ":");
    builder.AppendInteger(column + 1, NegativeOnly);
    assert builder.owner.text == t0 + (file + ":" + a + ":" + b);
    if colonSuffix {
      builder.Append(":");
    }
    FilePositionTextIs(file, line, column, colonSuffix, a, b);
  }

  lemma FilePositionTextIs(file: seq<char>, line: nat, column: nat, colonSuffix: bool, a: seq<char>, b: seq<char>)
    requires a == IntegerText(line + 1, NegativeOnly) && b == IntegerText(column + 1, NegativeOnly)
    ensures FilePositionText(file, line, column, colonSuffix) == file + ":" + a + ":" + b + (if colonSuffix then ":" else "")
  {
    assert a == ToCharacters(line + 1) && b == ToCharacters(column + 1);
  }

  /** A file position reads back: the file name, then the line and the
    * column numbers, separated by `:`, which parse back as `line + 1` and
    * `column + 1`, so they are one-based; then the optional `:`. */
  lemma FilePositionReadsBack(file: seq<char>, line: nat, column: nat, colonSuffix: bool)
    requires line + 1 < 0x8000_0000_0000_0000 && column + 1 < 0x8000_0000_0000_0000
    ensures var s := FilePositionText(file, line, column, colonSuffix);
      var n := |file| + 1 + |ToCharacters(line + 1)|;
      var m := n + 1 + |ToCharacters(column + 1)|;
      m <= |s| && s[..|file|] == file && s[|file|] == ':' && s[n] == ':'
      && ParseUtils.ParseIntegerLiteral(s[|file| + 1..n]) == Some(line + 1)
      && ParseUtils.ParseIntegerLiteral(s[n + 1..m]) == Some(column + 1)
      && s[m..] == (if colonSuffix then ":" else "")
  {
    FilePositionParts(file, line, column, colonSuffix, FilePositionText(file, line, column, colonSuffix),
                      ToCharacters(line + 1), ToCharacters(column + 1));
  }

  lemma FilePositionParts(file: seq<char>, line: nat, column: nat, colonSuffix: bool, s: seq<char>, a: seq<char>, b: seq<char>)
    requires line + 1 < 0x8000_0000_0000_0000 && column + 1 < 0x8000_0000_0000_0000
    requires s == FilePositionText(file, line, column, colonSuffix)
    requires a == ToCharacters(line + 1) && b == ToCharacters(column + 1)
    ensures var n := |file| + 1 + |a|;
      var m := n + 1 + |b|;
      m <= |s| && s[..|file|] == file && s[|file|] == ':' && s[n] == ':'
      && ParseUtils.ParseIntegerLiteral(s[|file| + 1..n]) == Some(line + 1)
      && ParseUtils.ParseIntegerLiteral(s[n + 1..m]) == Some(column + 1)
      && s[m..] == (if colonSuffix then ":" else "")
  {
    var suffix: seq<char> := if colonSuffix then ":" else "";
    ParseUtils.CharactersRoundTrip(line + 1);
    ParseUtils.CharactersRoundTrip(column + 1);
    assert s == file + ":" + a + ":" + b + suffix;
    PositionSlices(s, file, a, b, suffix);
  }

  /** Where the parts of `file:a:b` followed by `suffix` lie. */
  lemma PositionSlices(s: seq<char>, file: seq<char>, a: seq<char>, b: seq<char>, suffix: seq<char>)
    requires s == file + ":" + a + ":" + b + suffix
    ensures var n := |file| + 1 + |a|;
      var m := n + 1 + |b|;
      m <= |s| && s[..|file|] == file && s[|file|] == ':' && s[n] == ':'
      && s[|file| + 1..n] == a && s[n + 1..m] == b && s[m..] == suffix
  {
    assert s == (file + ":") + a + (":" + b + suffix);
    SlicesOfConcat(file + ":", a, ":" + b + suffix);
    assert s == (file + ":" + a + ":") + b + suffix;
    SlicesOfConcat(file + ":" + a + ":", b, suffix);
    assert s[..|file|] == file by { assert s == file + (":" + a + ":" + b + suffix); }
  }

  lemma SlicesOfConcat(a: seq<char>, b: seq<char>, c: seq<char>)
    ensures (a + b + c)[|a|..|a| + |b|] == b && (a + b + c)[|a| + |b|..] == c
  {
    assert (a + b + c)[|a|..|a| + |b|] == b;
  }

  // ---------------------------------------------------------------------
  // `print_cut_off`.

  predicate IsControl(c: char)
  {
    c == '\r' || c == '\t' || c == '\n'
  }

  /** Where the plain run from `i` ends: `v.substr(i, stop - i)` cut at
    * its first `\r`, `\t` or `\n` (`find_first_of`). */
  function PlainEnd(v: seq<char>, i: nat, stop: nat): (j: nat)
    requires i <= stop <= |v|
    ensures i <= j <= stop
    ensures i < stop && !IsControl(v[i]) ==> i < j
    decreases stop - i
  {
    if i == stop || IsControl(v[i]) then i else PlainEnd(v, i + 1, stop)
  }

  /** The run ends at the first control character before `stop`, if any. */
  lemma {:induction false} PlainEndIsRun(v: seq<char>, i: nat, stop: nat)
    requires i <= stop <= |v|
    ensures forall k | i <= k < PlainEnd(v, i, stop) :: !IsControl(v[k])
    ensures PlainEnd(v, i, stop) < stop ==> IsControl(v[PlainEnd(v, i, stop)])
    decreases stop - i
  {
    if i < stop && !IsControl(v[i]) {
      PlainEndIsRun(v, i + 1, stop);
    }
  }

  /** The two-character escape printed for a control character. */
  function EscapeOf(c: char): seq<char>
    requires IsControl(c)
  {
    if c == '\r' then "\\r" else if c == '\t' then "\\t" else "\\n"
  }

  const ELLIPSIS := Piece("...", Some(Punctuation))

  /** One turn of the loop of `print_cut_off` below the limit, at `i`:
    * the piece appended and where reading goes on. */
  function CutOffPiece(v: seq<char>, limit: nat, i: nat, visual: nat): (r: Turn)
    requires i < |v| && visual < limit
    ensures i < r.next <= |v| && r.piece.text != [] && r.piece.kind != Some(Punctuation)
  {
    if IsControl(v[i]) then Turn(Piece(EscapeOf(v[i]), Some(DiagnosticHighlight.Escape)), i + 1)
    else
      var j := PlainEnd(v, i, Min(|v|, i + (limit - visual)));
      Turn(Piece(v[i..j], Some(CodeCitation)), j)
  }

  datatype Turn = Turn(piece: Piece, next: nat)

  /** The pieces the loop of `print_cut_off` appends from position `i` on,
    * `visual` characters already printed. */
  function CutOffFrom(v: seq<char>, limit: nat, i: nat, visual: nat): (ps: seq<Piece>)
    requires i <= |v|
    decreases |v| - i
  {
    if i == |v| then []
    else if visual >= limit then [ELLIPSIS]
    else
      var t := CutOffPiece(v, limit, i, visual);
      [t.piece] + CutOffFrom(v, limit, t.next, visual + |t.piece.text|)
  }

  /** `print_cut_off`'s pieces: none exactly for the empty view, and only
    * the ellipsis when nothing may be printed. */
  function CutOff(v: seq<char>, limit: nat): (ps: seq<Piece>)
    ensures ps == [] <==> v == []
    ensures limit == 0 && v != [] ==> ps == [ELLIPSIS]
  {
    CutOffFrom(v, limit, 0, 0)
  }

  /** Where the loop of `print_cut_off` stops reading `v`. */
  function CutOffEnd(v: seq<char>, limit: nat, i: nat, visual: nat): (e: nat)
    requires i <= |v|
    ensures i <= e <= |v|
    decreases |v| - i
  {
    if i == |v| || visual >= limit then i
    else
      var t := CutOffPiece(v, limit, i, visual);
      CutOffEnd(v, limit, t.next, visual + |t.piece.text|)
  }

  /** The source text a piece stands for: an escape decoded, the
    * ellipsis standing for nothing. */
  function PieceShown(p: Piece): seq<char>
  {
    if p.kind == Some(DiagnosticHighlight.Escape) && |p.text| == 2 then
      [if p.text[1] == 'r' then '\r' else if p.text[1] == 't' then '\t' else '\n']
    else if p.kind == Some(CodeCitation) then p.text
    else []
  }

  function Shown(ps: seq<Piece>): seq<char>
  {
    if ps == [] then [] else PieceShown(ps[0]) + Shown(ps[1..])
  }

  /** How many characters a piece prints; the ellipsis counts as none. */
  function PieceVisual(p: Piece): nat
  {
    if p.kind == Some(Punctuation) then 0 else |p.text|
  }

  function Visual(ps: seq<Piece>): nat
  {
    if ps == [] then 0 else PieceVisual(ps[0]) + Visual(ps[1..])
  }

  predicate CutShort(ps: seq<Piece>)
  {
    ps != [] && ps[|ps| - 1].kind == Some(Punctuation)
  }

  lemma ShownCons(p: Piece, rest: seq<Piece>)
    ensures Shown([p] + rest) == PieceShown(p) + Shown(rest)
    ensures Visual([p] + rest) == PieceVisual(p) + Visual(rest)
    ensures p.kind != Some(Punctuation) ==> (CutShort([p] + rest) <==> CutShort(rest))
  {
    assert ([p] + rest)[1..] == rest;
  }

  /** One piece below the limit: it stands for the bytes it moves over. */
  lemma CutOffPieceShown(v: seq<char>, limit: nat, i: nat, visual: nat, t: Turn)
    requires i < |v| && visual < limit && t == CutOffPiece(v, limit, i, visual)
    ensures PieceShown(t.piece) == v[i..t.next] && PieceVisual(t.piece) == |t.piece.text|
    ensures visual + |t.piece.text| <= limit + 1
  {
  }

  /** The pieces of the ellipsis case. */
  lemma EllipsisCase(v: seq<char>, limit: nat, i: nat, visual: nat)
    requires i < |v| && visual >= limit
    ensures CutOffFrom(v, limit, i, visual) == [ELLIPSIS] + []
    ensures CutOffEnd(v, limit, i, visual) == i
  {
  }

  /** The pieces of one turn below the limit. */
  lemma PieceCase(v: seq<char>, limit: nat, i: nat, visual: nat, t: Turn)
    requires i < |v| && visual < limit && t == CutOffPiece(v, limit, i, visual)
    ensures CutOffFrom(v, limit, i, visual) == [t.piece] + CutOffFrom(v, limit, t.next, visual + |t.piece.text|)
    ensures CutOffEnd(v, limit, i, visual) == CutOffEnd(v, limit, t.next, visual + |t.piece.text|)
  {
    PieceCaseLet(v, limit, i, visual);
  }

  /** The same, stated through the turn's own result. */
  lemma PieceCaseLet(v: seq<char>, limit: nat, i: nat, visual: nat)
    requires i < |v| && visual < limit
    ensures var t := CutOffPiece(v, limit, i, visual);
      CutOffFrom(v, limit, i, visual) == [t.piece] + CutOffFrom(v, limit, t.next, visual + |t.piece.text|)
      && CutOffEnd(v, limit, i, visual) == CutOffEnd(v, limit, t.next, visual + |t.piece.text|)
  {
  }

  /** One turn of the loop of `print_cut_off` below the limit keeps the
    * pieces appended so far, followed by those still to come, the whole
    * list. */
  lemma LoopStep(v: seq<char>, limit: nat, i: nat, visual: nat, done: seq<Piece>, p: Piece, next: nat)
    requires i < |v| && visual < limit && Turn(p, next) == CutOffPiece(v, limit, i, visual)
    requires done + CutOffFrom(v, limit, i, visual) == CutOff(v, limit)
    ensures next <= |v|
    ensures (done + [p]) + CutOffFrom(v, limit, next, visual + |p.text|) == CutOff(v, limit)
  {
    PieceCase(v, limit, i, visual, Turn(p, next));
    Associative(done, [p], CutOffFrom(v, limit, next, visual + |p.text|));
  }

  /** Once the limit is reached, the ellipsis completes the list. */
  lemma LoopStop(v: seq<char>, limit: nat, i: nat, visual: nat, done: seq<Piece>)
    requires i < |v| && visual >= limit
    requires done + CutOffFrom(v, limit, i, visual) == CutOff(v, limit)
    ensures done + [ELLIPSIS] == CutOff(v, limit)
  {
    EllipsisCase(v, limit, i, visual);
  }

  /** At the end of `v`, the pieces appended are all of them. */
  lemma LoopEnd(v: seq<char>, limit: nat, visual: nat, done: seq<Piece>)
    requires done + CutOffFrom(v, limit, |v|, visual) == CutOff(v, limit)
    ensures done == CutOff(v, limit)
  {
    assert done + [] == done;
  }

  /** What the pieces from `i` on satisfy: they stand for the bytes read,
    * the ellipsis comes last exactly when the loop stops early, what they
    * print exceeds the limit by at most one, and reaches it when the loop
    * stops early. */
  predicate CutOffFacts(v: seq<char>, limit: nat, i: nat, visual: nat)
    requires i <= |v|
  {
    var ps, e := CutOffFrom(v, limit, i, visual), CutOffEnd(v, limit, i, visual);
    Shown(ps) == v[i..e]
    && (CutShort(ps) <==> e < |v|)
    && visual + Visual(ps) <= limit + 1
    && (e < |v| ==> visual + Visual(ps) >= limit)
  }

  lemma {:induction false} CutOffFromShows(v: seq<char>, limit: nat, i: nat, visual: nat)
    requires i <= |v| && visual <= limit + 1
    ensures CutOffFacts(v, limit, i, visual)
    decreases |v| - i
  {
    if i == |v| {
    } else if visual >= limit {
      EllipsisStep(v, limit, i, visual);
    } else {
      var t := CutOffPiece(v, limit, i, visual);
      CutOffPieceShown(v, limit, i, visual, t);
      CutOffFromShows(v, limit, t.next, visual + |t.piece.text|);
      PieceStep(v, limit, i, visual);
    }
  }

  /** The facts at the ellipsis. */
  lemma EllipsisStep(v: seq<char>, limit: nat, i: nat, visual: nat)
    requires i < |v| && limit <= visual <= limit + 1
    ensures CutOffFacts(v, limit, i, visual)
  {
    EllipsisCase(v, limit, i, visual);
    ShownCons(ELLIPSIS, []);
  }

  /** One turn below the limit keeps the facts. */
  lemma PieceStep(v: seq<char>, limit: nat, i: nat, visual: nat)
    requires i < |v| && visual < limit
    requires var t := CutOffPiece(v, limit, i, visual); CutOffFacts(v, limit, t.next, visual + |t.piece.text|)
    ensures CutOffFacts(v, limit, i, visual)
  {
    var t := CutOffPiece(v, limit, i, visual);
    var rest := CutOffFrom(v, limit, t.next, visual + |t.piece.text|);
    PieceCase(v, limit, i, visual, t);
    CutOffPieceShown(v, limit, i, visual, t);
    ShownCons(t.piece, rest);
    ShownStep(v, i, t.next, CutOffEnd(v, limit, t.next, visual + |t.piece.text|), t.piece, rest, CutOffFrom(v, limit, i, visual));
  }

  /** Two pieces of source text that are adjacent slices join. */
  lemma ShownStep(v: seq<char>, i: nat, n: nat, e: nat, p: Piece, rest: seq<Piece>, ps: seq<Piece>)
    requires i <= n <= e <= |v|
    requires ps == [p] + rest
    requires PieceShown(p) == v[i..n] && Shown(rest) == v[n..e]
    ensures Shown(ps) == v[i..e]
  {
    ShownCons(p, rest);
  }
  /** `print_cut_off` prints a prefix of `v`: control characters as their
    * two-character escapes and everything else verbatim. It appends
    * `...` exactly when it stops before the end of `v`, which it does
    * only once it has printed at least `limit` characters, and it never
    * prints more than `limit + 1` (an escape can cross the limit by one). */
  lemma CutOffShows(v: seq<char>, limit: nat)
    ensures var ps := CutOff(v, limit);
      Shown(ps) <= v
      && (CutShort(ps) <==> |Shown(ps)| < |v|)
      && (CutShort(ps) ==> Visual(ps) >= limit)
      && Visual(ps) <= limit + 1
  {
    CutOffFromShows(v, limit, 0, 0);
  }

  /** One turn of the loop of `print_cut_off` below the limit: an escaped
    * control character, or the run of other characters up to the limit. */
  method NextPiece(v: seq<char>, limit: nat, i: nat, visual: nat) returns (p: Piece, next: nat)
    requires i < |v| && visual < limit
    ensures Turn(p, next) == CutOffPiece(v, limit, i, visual) && !EmptyTyped(p)
  {
    if IsControl(v[i]) {
      p, next := Piece(EscapeOf(v[i]), Some(DiagnosticHighlight.Escape)), i + 1;
    } else {
      next := PlainEnd(v, i, Min(|v|, i + (limit - visual)));
      p := Piece(v[i..next], Some(CodeCitation));
    }
  }

  /** Appends the next piece below the limit and returns where the loop
    * goes on and how much it has printed. */
  method AppendTurn(out: DiagnosticString, v: seq<char>, limit: nat, i: nat, visual: nat,
                    ghost oldText: seq<char>, ghost oldSpans: seq<Highlight.Span<DiagnosticHighlight>>,
                    ghost start: nat, ghost done: seq<Piece>)
    returns (next: nat, visual': nat, ghost done': seq<Piece>)
    requires i < |v| && visual < limit && start == |oldText|
    requires done + CutOffFrom(v, limit, i, visual) == CutOff(v, limit)
    requires out.text == oldText + PiecesText(done) && out.spans == oldSpans + PiecesSpans(start, done)
    modifies out
    ensures i < next <= |v| && visual < visual'
    ensures done' + CutOffFrom(v, limit, next, visual') == CutOff(v, limit)
    ensures out.text == oldText + PiecesText(done') && out.spans == oldSpans + PiecesSpans(start, done')
  {
    var p;
    p, next := NextPiece(v, limit, i, visual);
    LoopStep(v, limit, i, visual, done, p, next);
    AppendNext(out, p, oldText, oldSpans, start, done);
    visual', done' := visual + |p.text|, done + [p];
  }

  /** Once the limit is reached, the ellipsis completes the output. */
  method AppendEllipsis(out: DiagnosticString, v: seq<char>, limit: nat, i: nat, visual: nat,
                        ghost oldText: seq<char>, ghost oldSpans: seq<Highlight.Span<DiagnosticHighlight>>,
                        ghost start: nat, ghost done: seq<Piece>)
    requires i < |v| && visual >= limit && start == |oldText|
    requires done + CutOffFrom(v, limit, i, visual) == CutOff(v, limit)
    requires out.text == oldText + PiecesText(done) && out.spans == oldSpans + PiecesSpans(start, done)
    modifies out
    ensures out.text == oldText + PiecesText(CutOff(v, limit))
    ensures out.spans == oldSpans + PiecesSpans(start, CutOff(v, limit))
  {
    LoopStop(v, limit, i, visual, done);
    assert !EmptyTyped(ELLIPSIS);
    AppendNext(out, ELLIPSIS, oldText, oldSpans, start, done);
  }

  /** `print_cut_off`. */
  method PrintCutOff(out: DiagnosticString, v: seq<char>, limit: nat)
    modifies out
    ensures out.text == old(out.text) + PiecesText(CutOff(v, limit))
    ensures out.spans == old(out.spans) + PiecesSpans(|old(out.text)|, CutOff(v, limit))
  {
    var visual: nat := 0;
    var i: nat := 0;
    ghost var done: seq<Piece> := [];
    ghost var oldText, oldSpans := out.text, out.spans;
    ghost var start := |oldText|;
    while i < |v|
      invariant i <= |v|
      invariant done + CutOffFrom(v, limit, i, visual) == CutOff(v, limit)
      invariant out.text == oldText + PiecesText(done)
      invariant out.spans == oldSpans + PiecesSpans(start, done)
      decreases |v| - i
    {
      if visual >= limit {
        AppendEllipsis(out, v, limit, i, visual, oldText, oldSpans, start, done);
        return;
      }
      i, visual, done := AppendTurn(out, v, limit, i, visual, oldText, oldSpans, start, done);
    }
    LoopEnd(v, limit, visual, done);
  }

  // ---------------------------------------------------------------------
  // Indentation of the AST printer.

  /** The part of `AST_Printer` that indents: the output, the indentation
    * width of the formatting options and the current level. */
  class IndentingPrinter {
    const out: DiagnosticString
    const indentWidth: int
    var indentLevel: int

    constructor (out: DiagnosticString, indentWidth: int)
      ensures this.out == out && this.indentWidth == indentWidth && indentLevel == 0
    {
      this.out := out;
      this.indentWidth := indentWidth;
      indentLevel := 0;
    }

    /** `print_indent`: `indent_width * indent_level` spaces. It asserts
      * that level and width are not negative; `crashed` tells whether an
      * assertion failed, and then nothing is printed. */
    method PrintIndent() returns (crashed: bool)
      modifies out
      ensures crashed <==> indentLevel < 0 || indentWidth < 0
      ensures out.text == old(out.text) + if crashed then [] else Repeat(indentWidth * indentLevel, ' ')
      ensures out.spans == old(out.spans)
    {
      if indentLevel < 0 || indentWidth < 0 {
        return true;
      }
      crashed := false;
      out.AppendRepeated(indentWidth * indentLevel, ' ');
    }
  }

  /** `Scoped_Indent`: one level deeper from its creation to its end. */
  class ScopedIndent {
    const printer: IndentingPrinter

    constructor (printer: IndentingPrinter)
      modifies printer
      ensures this.printer == printer && printer.indentLevel == old(printer.indentLevel) + 1
    {
      this.printer := printer;
      printer.indentLevel := printer.indentLevel + 1;
    }

    /** The destructor. */
    method End()
      modifies printer
      ensures printer.indentLevel == old(printer.indentLevel) - 1
    {
      printer.indentLevel := printer.indentLevel - 1;
    }
  }

  /** A scope indents what is printed inside it by one more level and
    * leaves the level as it found it, also when the indent's assertion
    * fails (the scope's destructor runs as the exception unwinds). */
  method IndentedIndent(printer: IndentingPrinter) returns (crashed: bool)
    modifies printer, printer.out
    ensures crashed <==> printer.indentLevel + 1 < 0 || printer.indentWidth < 0
    ensures printer.indentLevel == old(printer.indentLevel)
    ensures printer.out.text == old(printer.out.text) +
      if crashed then [] else Repeat(printer.indentWidth * (printer.indentLevel + 1), ' ')
  {
    var scope := new ScopedIndent(printer);
    crashed := printer.PrintIndent();
    scope.End();
  }
}
