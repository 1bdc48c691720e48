/*
 * Three inputs on which `parse` in src/main/cpp/parse.cpp, as written,
 * breaks the promise of include/mmml/parse.hpp that parsing never fails
 * and that the instructions cover the source; and what the corrected
 * revision does with each of them.
 */
module ParseFindings {
  import opened Options
  import opened Chars
  import opened Instructions
  import opened ParseTree
  import opened ParseSpec
  import U = Unicode
  import R = Results

  /** The decoder on an ASCII byte. */
  lemma DecodeAscii(c: byte, rest: seq<byte>)
    requires c as int < 0x80
    ensures U.DecodeAndLength([c] + rest) == R.Success(U.CodePointAndLength(c as int, 1))
  {
    assert U.Encode(c as int) == [c];
    U.DecodeEncode(c as int, rest);
  }

  // ---------------------------------------------------------------------
  // An escape sequence that ends the source.

  /** `\{` as the whole document: `try_match_escaped` refuses it because
    * `0 + 2 < 2` fails, `try_match_directive` finds no name, and the text
    * loop stops at once before the escapeable `{`, so `try_match_content`
    * returns `false` and the assertion in `match_content_sequence`
    * fails. */
  lemma EscapeAtEndAsWritten()
    ensures Parse(AsWritten, "\\{").Crash?
  {
    var s: seq<byte> := "\\{";
    DecodeAscii('{', []);
    assert s[1..] == ['{'] + [];
    assert MatchDirectiveName(U.DecodeAndLength, s, 1) == Done(0, 1);
    assert TryMatchEscapedOrDirective(AsWritten, U.DecodeAndLength, s, 0) == Done(None, 0);
    assert ScanStep(AsWritten, U.DecodeAndLength, s, Document, 0, NO_LEVELS) == Stop(NO_LEVELS);
    assert MatchText(AsWritten, U.DecodeAndLength, s, Document, 0, NO_LEVELS).value.piece.None?;
  }

  /** With `m_pos + 2 <= size` the same input is one escape sequence. */
  lemma EscapeAtEndCorrected()
    ensures Parse(Corrected, "\\{") == Done([EscapePiece], 2)
    ensures EmitDocument([EscapePiece])
      == [Instruction(PushDocument, 1), Instruction(Escape, 2), Instruction(PopDocument, 0)]
  {
    var s: seq<byte> := "\\{";
    assert TryMatchContent(Corrected, U.DecodeAndLength, s, Document, 0, NO_LEVELS)
      == Done(Matched(Some(EscapePiece), NO_LEVELS), 2);
    assert ContentLoop(Corrected, U.DecodeAndLength, s, Document, 2, NO_LEVELS) == Done([], 2);
    assert [EscapePiece] + [] == [EscapePiece];
  }

  // ---------------------------------------------------------------------
  // A backslash before an ASCII digit.

  /** `\1`: a digit is a directive name character, so the text loop stops
    * before the backslash, but `match_directive_name` refuses a name that
    * starts with a digit; nothing is matched and the assertion fails.  Any
    * document holding `\` followed by a digit fails the same way. */
  lemma BackslashDigitAsWritten()
    ensures Parse(AsWritten, "\\1").Crash?
  {
    var s: seq<byte> := "\\1";
    DecodeAscii('1', []);
    assert s[1..] == ['1'] + [];
    assert TryMatchEscapedOrDirective(AsWritten, U.DecodeAndLength, s, 0) == Done(None, 0);
    assert ScanStep(AsWritten, U.DecodeAndLength, s, Document, 0, NO_LEVELS) == Stop(NO_LEVELS);
    assert MatchText(AsWritten, U.DecodeAndLength, s, Document, 0, NO_LEVELS).value.piece.None?;
  }

  /** When the text loop stops only where a directive can start, `\1` is
    * text. */
  lemma BackslashDigitCorrected()
    ensures Parse(Corrected, "\\1") == Done([TextPiece(2)], 2)
  {
    var s: seq<byte> := "\\1";
    BackslashDigitText();
    assert TryMatchEscapedOrDirective(Corrected, U.DecodeAndLength, s, 0) == Done(None, 0);
    assert TryMatchContent(Corrected, U.DecodeAndLength, s, Document, 0, NO_LEVELS)
      == Done(Matched(Some(TextPiece(2)), NO_LEVELS), 2);
    assert ContentLoop(Corrected, U.DecodeAndLength, s, Document, 2, NO_LEVELS) == Done([], 2);
    assert [TextPiece(2)] + [] == [TextPiece(2)];
  }

  lemma BackslashDigitText()
    ensures MatchText(Corrected, U.DecodeAndLength, "\\1", Document, 0, NO_LEVELS)
      == Done(Matched(Some(TextPiece(2)), NO_LEVELS), 2)
  {
    var s: seq<byte> := "\\1";
    DecodeAscii('1', []);
    assert s[1..] == ['1'] + [];
    assert ScanStep(Corrected, U.DecodeAndLength, s, Document, 0, NO_LEVELS) == Continue(NO_LEVELS);
    assert ScanStep(Corrected, U.DecodeAndLength, s, Document, 1, NO_LEVELS) == Continue(NO_LEVELS);
    assert ScanText(Corrected, U.DecodeAndLength, s, Document, 2, NO_LEVELS) == Done(NO_LEVELS, 2);
    assert ScanText(Corrected, U.DecodeAndLength, s, Document, 1, NO_LEVELS) == Done(NO_LEVELS, 2);
  }

  // ---------------------------------------------------------------------
  // A block that runs into the end of the source.

  const UNTERMINATED: seq<byte> := "\\b{x"

  /** The directive name `b`. */
  lemma UnterminatedName()
    ensures MatchDirectiveName(U.DecodeAndLength, UNTERMINATED, 1) == Done(1, 2)
  {
    var s := UNTERMINATED;
    DecodeAscii('b', ['{', 'x']);
    DecodeAscii('{', ['x']);
    assert s[1..] == ['b'] + ['{', 'x'];
    assert s[2..] == ['{'] + ['x'];
    assert MatchCodePoints(IsMmmlDirectiveNameCharacter, U.DecodeAndLength, s, 2) == Done(0, 2);
  }

  /** The text `x` that ends the source. */
  lemma UnterminatedTail(v: Revision, ctx: ContentContext)
    ensures ScanText(v, U.DecodeAndLength, UNTERMINATED, ctx, 3, NO_LEVELS) == Done(NO_LEVELS, 4)
    ensures ContentLoop(v, U.DecodeAndLength, UNTERMINATED, ctx, 3, NO_LEVELS) == Done([TextPiece(1)], 4)
  {
    var s, d := UNTERMINATED, U.DecodeAndLength;
    assert ScanStep(v, d, s, ctx, 3, NO_LEVELS) == Continue(NO_LEVELS);
    assert ScanText(v, d, s, ctx, 4, NO_LEVELS) == Done(NO_LEVELS, 4);
    assert TryMatchEscapedOrDirective(v, d, s, 3) == Done(None, 3);
    assert TryMatchContent(v, d, s, ctx, 3, NO_LEVELS) == Done(Matched(Some(TextPiece(1)), NO_LEVELS), 4);
    assert ContentLoop(v, d, s, ctx, 4, NO_LEVELS) == Done([], 4);
    assert [TextPiece(1)] + [] == [TextPiece(1)];
  }

  /** The block attempt: its content runs into the end of the source. */
  lemma UnterminatedBlock(v: Revision)
    ensures TryMatchBlock(v, U.DecodeAndLength, UNTERMINATED, 2)
      == if v == AsWritten then Done(LostBrace, 3) else Done(NoBlock, 2)
  {
    UnterminatedTail(v, BlockContent);
  }

  /** The directive `\b` and what its block attempt leaves consumed. */
  lemma UnterminatedDirective(v: Revision)
    ensures TryMatchContent(v, U.DecodeAndLength, UNTERMINATED, Document, 0, NO_LEVELS)
      == if v == AsWritten then Done(Matched(Some(DirectivePiece(1, NoArguments, LostBrace)), NO_LEVELS), 3)
         else Done(Matched(Some(DirectivePiece(1, NoArguments, NoBlock)), NO_LEVELS), 2)
  {
    var s, d := UNTERMINATED, U.DecodeAndLength;
    UnterminatedName();
    UnterminatedBlock(v);
    assert TryMatchArgumentList(v, d, s, 2) == Done(NoArguments, 2);
    assert !EscapeAt(v, s, 0);
  }

  /** `\b{x`: `try_match_block` consumes `{` before its attempt, the block
    * content runs into the end, and the aborted attempt restores the
    * position after the brace; no instruction covers that byte. */
  lemma UnterminatedBlockAsWritten()
    ensures Parse(AsWritten, UNTERMINATED) == Done([DirectivePiece(1, NoArguments, LostBrace), TextPiece(1)], 4)
    ensures Width(EmitDocument([DirectivePiece(1, NoArguments, LostBrace), TextPiece(1)])) == 3
  {
    UnterminatedLoopAsWritten();
    var ps := [DirectivePiece(1, NoArguments, LostBrace), TextPiece(1)];
    DocumentCoverage(ps);
    assert PiecesLost(ps) == 1 by {
      assert ps[1..] == [TextPiece(1)];
    }
  }

  lemma UnterminatedLoopAsWritten()
    ensures ContentLoop(AsWritten, U.DecodeAndLength, UNTERMINATED, Document, 0, NO_LEVELS)
      == Done([DirectivePiece(1, NoArguments, LostBrace), TextPiece(1)], 4)
  {
    UnterminatedDirective(AsWritten);
    UnterminatedTail(AsWritten, Document);
    assert [DirectivePiece(1, NoArguments, LostBrace)] + [TextPiece(1)]
      == [DirectivePiece(1, NoArguments, LostBrace), TextPiece(1)];
  }

  /** The rest `{x` after the directive, as text. */
  lemma UnterminatedRestCorrected()
    ensures ContentLoop(Corrected, U.DecodeAndLength, UNTERMINATED, Document, 2, NO_LEVELS) == Done([TextPiece(2)], 4)
  {
    var s, d := UNTERMINATED, U.DecodeAndLength;
    UnterminatedTail(Corrected, Document);
    assert ScanStep(Corrected, d, s, Document, 2, NO_LEVELS) == Continue(NO_LEVELS);
    assert ScanText(Corrected, d, s, Document, 2, NO_LEVELS) == Done(NO_LEVELS, 4);
    assert TryMatchEscapedOrDirective(Corrected, d, s, 2) == Done(None, 2);
    assert TryMatchContent(Corrected, d, s, Document, 2, NO_LEVELS) == Done(Matched(Some(TextPiece(2)), NO_LEVELS), 4);
    assert ContentLoop(Corrected, d, s, Document, 4, NO_LEVELS) == Done([], 4);
    assert [TextPiece(2)] + [] == [TextPiece(2)];
  }

  /** When the brace is given back with the rest of the attempt, `{x` is
    * text after the directive and the instructions cover all four bytes. */
  lemma UnterminatedBlockCorrected()
    ensures Parse(Corrected, UNTERMINATED) == Done([DirectivePiece(1, NoArguments, NoBlock), TextPiece(2)], 4)
    ensures Width(EmitDocument([DirectivePiece(1, NoArguments, NoBlock), TextPiece(2)])) == 4
  {
    UnterminatedLoopCorrected();
    DocumentCoverage([DirectivePiece(1, NoArguments, NoBlock), TextPiece(2)]);
  }

  lemma UnterminatedLoopCorrected()
    ensures ContentLoop(Corrected, U.DecodeAndLength, UNTERMINATED, Document, 0, NO_LEVELS)
      == Done([DirectivePiece(1, NoArguments, NoBlock), TextPiece(2)], 4)
  {
    UnterminatedDirective(Corrected);
    UnterminatedRestCorrected();
    assert [DirectivePiece(1, NoArguments, NoBlock)] + [TextPiece(2)]
      == [DirectivePiece(1, NoArguments, NoBlock), TextPiece(2)];
  }
}
