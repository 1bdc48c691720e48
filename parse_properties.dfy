/*
 * What the parser of src/main/cpp/parse.cpp guarantees, and where the code
 * as written falls short of it.
 */
module ParseProperties {
  import opened Options
  import opened Chars
  import opened Instructions
  import opened ParseTree
  import opened ParseSpec
  import U = Unicode
  import PU = ParseUtils

  // ---------------------------------------------------------------------
  // On valid input the corrected parser never fails an assertion, and
  // every matcher leaves the rest of the input valid.

  lemma {:induction false} MatchCodePointsTotal(isName: int -> bool, dec: Decoder, s: seq<byte>, i: nat)
    requires Sound(dec) && i <= |s| && ValidFrom(dec, s, i)
    ensures MatchCodePoints(isName, dec, s, i).Done?
    ensures ValidFrom(dec, s, MatchCodePoints(isName, dec, s, i).pos)
    decreases |s| - i
  {
    if i < |s| {
      ValidStep(dec, s, i);
      var d := dec(s[i..]);
      if isName(d.value.codePoint) {
        MatchCodePointsTotal(isName, dec, s, i + d.value.length);
      }
    }
  }

  lemma {:induction false} ScanTextTotal(dec: Decoder, s: seq<byte>, ctx: ContentContext, initial: nat, i: nat, lv: BracketLevels)
    requires Sound(dec) && initial <= i <= |s| && ValidFrom(dec, s, initial)
    ensures ScanText(Corrected, dec, s, ctx, i, lv).Done?
    decreases |s| - i
  {
    if i < |s| {
      if s[i] == '\\' && i + 1 < |s| {
        ValidPastAscii(dec, s, initial, i);
        ValidStep(dec, s, i + 1);
      }
      var step := ScanStep(Corrected, dec, s, ctx, i, lv);
      if step.Continue? {
        ScanTextTotal(dec, s, ctx, initial, i + 1, step.levels);
      }
    }
  }

  lemma TryMatchArgumentNameTotal(dec: Decoder, s: seq<byte>, p: nat)
    requires Sound(dec) && p <= |s| && ValidFrom(dec, s, p)
    ensures TryMatchArgumentName(dec, s, p).Done?
    ensures ValidFrom(dec, s, TryMatchArgumentName(dec, s, p).pos)
  {
    var w := PU.FirstNonWhitespace(s, p);
    if w < |s| {
      ValidAcrossWhitespace(dec, s, p, w);
      ArgumentNameTotal(dec, s, p, w);
    }
  }

  /** The name and what follows it, once the leading whitespace of
    * `try_match_argument_name` ends at `w`. */
  lemma ArgumentNameTotal(dec: Decoder, s: seq<byte>, p: nat, w: nat)
    requires Sound(dec) && p <= w < |s| && w == PU.FirstNonWhitespace(s, p)
    requires ValidFrom(dec, s, p) && ValidFrom(dec, s, w)
    ensures TryMatchArgumentName(dec, s, p).Done?
    ensures ValidFrom(dec, s, TryMatchArgumentName(dec, s, p).pos)
  {
    MatchArgumentNameTotal(dec, s, w);
    var name := MatchArgumentName(dec, s, w);
    assert name.pos == w + name.value;
    NameAndEqualsValid(dec, s, p, w, name.value);
    assert TryMatchArgumentName(dec, s, p) == NameAndEquals(s, p, w, name.value);
  }

  lemma MatchArgumentNameTotal(dec: Decoder, s: seq<byte>, w: nat)
    requires Sound(dec) && w <= |s| && ValidFrom(dec, s, w)
    ensures MatchArgumentName(dec, s, w).Done?
    ensures ValidFrom(dec, s, MatchArgumentName(dec, s, w).pos)
  {
    if !(w < |s| && IsAsciiDigit(s[w] as int)) {
      MatchCodePointsTotal(IsMmmlArgumentNameCharacter, dec, s, w);
    }
  }

  lemma NameAndEqualsValid(dec: Decoder, s: seq<byte>, p: nat, w: nat, n: nat)
    requires Sound(dec) && p <= w <= w + n <= |s|
    requires ValidFrom(dec, s, p) && ValidFrom(dec, s, w + n)
    ensures ValidFrom(dec, s, NameAndEquals(s, p, w, n).pos)
  {
    if NameAndEquals(s, p, w, n).pos != p {
      var t := PU.FirstNonWhitespace(s, w + n);
      ValidAcrossWhitespace(dec, s, w + n, t);
      ValidPastAscii(dec, s, t, t);
    }
  }

  lemma {:induction false} MatchContentSequenceTotal(dec: Decoder, s: seq<byte>, ctx: ContentContext, pos: nat)
    requires Sound(dec) && pos <= |s| && ValidFrom(dec, s, pos)
    ensures MatchContentSequence(Corrected, dec, s, ctx, pos).Done?
    ensures ValidFrom(dec, s, MatchContentSequence(Corrected, dec, s, ctx, pos).pos)
    decreases |s| - pos, 5
  {
    ContentLoopTotal(dec, s, ctx, pos, NO_LEVELS);
  }

  lemma {:induction false} ContentLoopTotal(dec: Decoder, s: seq<byte>, ctx: ContentContext, pos: nat, lv: BracketLevels)
    requires Sound(dec) && pos <= |s| && ValidFrom(dec, s, pos)
    ensures ContentLoop(Corrected, dec, s, ctx, pos, lv).Done?
    ensures ValidFrom(dec, s, ContentLoop(Corrected, dec, s, ctx, pos, lv).pos)
    decreases |s| - pos, 4
  {
    if pos < |s| && !IsTerminatedBy(ctx, s[pos]) {
      TryMatchContentTotal(dec, s, ctx, pos, lv);
      var m := TryMatchContent(Corrected, dec, s, ctx, pos, lv);
      ContentLoopTotal(dec, s, ctx, m.pos, m.value.levels);
    }
  }

  /** Where a content sequence has not ended, a piece is matched. */
  lemma {:induction false} TryMatchContentTotal(dec: Decoder, s: seq<byte>, ctx: ContentContext, pos: nat, lv: BracketLevels)
    requires Sound(dec) && pos <= |s| && ValidFrom(dec, s, pos)
    ensures TryMatchContent(Corrected, dec, s, ctx, pos, lv).Done?
    ensures ValidFrom(dec, s, TryMatchContent(Corrected, dec, s, ctx, pos, lv).pos)
    ensures pos < |s| && !IsTerminatedBy(ctx, s[pos]) ==>
      TryMatchContent(Corrected, dec, s, ctx, pos, lv).value.piece.Some?
    decreases |s| - pos, 3
  {
    TryMatchEscapedOrDirectiveTotal(dec, s, pos);
    if TryMatchEscapedOrDirective(Corrected, dec, s, pos).value.None? {
      MatchTextTotal(dec, s, ctx, pos, lv);
    }
  }

  lemma {:induction false} TryMatchEscapedOrDirectiveTotal(dec: Decoder, s: seq<byte>, pos: nat)
    requires Sound(dec) && pos <= |s| && ValidFrom(dec, s, pos)
    ensures TryMatchEscapedOrDirective(Corrected, dec, s, pos).Done?
    ensures ValidFrom(dec, s, TryMatchEscapedOrDirective(Corrected, dec, s, pos).pos)
    ensures pos < |s| && BreaksAtBackslash(Corrected, dec, s, pos) ==>
      TryMatchEscapedOrDirective(Corrected, dec, s, pos).value.Some?
    decreases |s| - pos, 2
  {
    if pos < |s| && s[pos] == '\\' {
      if EscapeAt(Corrected, s, pos) {
        ValidPastAscii(dec, s, pos, pos);
        ValidPastAscii(dec, s, pos + 1, pos + 1);
      } else {
        TryMatchDirectiveTotal(dec, s, pos);
      }
    }
  }

  /** The text stops before a backslash or a terminator, where the input is
    * valid again; it is empty only where the content ends or an escape or
    * a directive starts. */
  lemma MatchTextTotal(dec: Decoder, s: seq<byte>, ctx: ContentContext, pos: nat, lv: BracketLevels)
    requires Sound(dec) && pos <= |s| && ValidFrom(dec, s, pos)
    ensures MatchText(Corrected, dec, s, ctx, pos, lv).Done?
    ensures ValidFrom(dec, s, MatchText(Corrected, dec, s, ctx, pos, lv).pos)
    ensures pos < |s| && MatchText(Corrected, dec, s, ctx, pos, lv).value.piece.None? ==>
      BreaksAtBackslash(Corrected, dec, s, pos) || IsTerminatedBy(ctx, s[pos])
  {
    ScanTextTotal(dec, s, ctx, pos, pos, lv);
    var text := ScanText(Corrected, dec, s, ctx, pos, lv);
    assert MatchText(Corrected, dec, s, ctx, pos, lv).pos == text.pos;
    if text.pos < |s| {
      ValidPastAscii(dec, s, pos, text.pos);
    }
  }

  lemma {:induction false} TryMatchDirectiveTotal(dec: Decoder, s: seq<byte>, pos: nat)
    requires Sound(dec) && pos <= |s| && ValidFrom(dec, s, pos)
    ensures TryMatchDirective(Corrected, dec, s, pos).Done?
    ensures ValidFrom(dec, s, TryMatchDirective(Corrected, dec, s, pos).pos)
    decreases |s| - pos, 1
  {
    if pos < |s| && s[pos] == '\\' {
      ValidPastAscii(dec, s, pos, pos);
      if !(pos + 1 < |s| && IsAsciiDigit(s[pos + 1] as int)) {
        MatchCodePointsTotal(IsMmmlDirectiveNameCharacter, dec, s, pos + 1);
      }
      var name := MatchDirectiveName(dec, s, pos + 1);
      if name.value > 0 {
        TryMatchArgumentListTotal(dec, s, name.pos);
        var args := TryMatchArgumentList(Corrected, dec, s, name.pos);
        TryMatchBlockTotal(dec, s, args.pos);
      }
    }
  }

  lemma {:induction false} TryMatchArgumentListTotal(dec: Decoder, s: seq<byte>, pos: nat)
    requires Sound(dec) && pos <= |s| && ValidFrom(dec, s, pos)
    ensures TryMatchArgumentList(Corrected, dec, s, pos).Done?
    ensures ValidFrom(dec, s, TryMatchArgumentList(Corrected, dec, s, pos).pos)
    decreases |s| - pos, 10
  {
    if pos < |s| && s[pos] == '[' {
      ValidPastAscii(dec, s, pos, pos);
      ArgumentLoopTotal(dec, s, pos + 1);
    }
  }

  lemma {:induction false} ArgumentLoopTotal(dec: Decoder, s: seq<byte>, p: nat)
    requires Sound(dec) && p <= |s| && ValidFrom(dec, s, p)
    ensures ArgumentLoop(Corrected, dec, s, p).Done?
    ensures ArgumentLoop(Corrected, dec, s, p).value.Some? ==>
      ValidFrom(dec, s, ArgumentLoop(Corrected, dec, s, p).pos)
    decreases |s| - p, 9
  {
    TryMatchArgumentTotal(dec, s, p);
    var arg := TryMatchArgument(Corrected, dec, s, p);
    if arg.value.Some? {
      ArgumentLoopAfterTotal(dec, s, p, arg.value.value, arg.pos);
    }
  }

  lemma {:induction false} ArgumentLoopAfterTotal(dec: Decoder, s: seq<byte>, p: nat, first: ArgumentNode, q: nat)
    requires Sound(dec) && q == p + ArgumentWidth(first) < |s| && (s[q] == ',' || s[q] == ']')
    requires PiecesLost(first.pieces) == 0 && ValidFrom(dec, s, q)
    ensures ArgumentLoopAfter(Corrected, dec, s, p, first, q).Done?
    ensures ArgumentLoopAfter(Corrected, dec, s, p, first, q).value.Some? ==>
      ValidFrom(dec, s, ArgumentLoopAfter(Corrected, dec, s, p, first, q).pos)
    decreases |s| - p, 8
  {
    ValidPastAscii(dec, s, q, q);
    if s[q] != ']' {
      ArgumentLoopTotal(dec, s, q + 1);
    }
  }

  lemma {:induction false} TryMatchArgumentTotal(dec: Decoder, s: seq<byte>, p: nat)
    requires Sound(dec) && p <= |s| && ValidFrom(dec, s, p)
    ensures TryMatchArgument(Corrected, dec, s, p).Done?
    ensures ValidFrom(dec, s, TryMatchArgument(Corrected, dec, s, p).pos)
    decreases |s| - p, 8
  {
    if p < |s| {
      TryMatchArgumentNameTotal(dec, s, p);
      var name := TryMatchArgumentName(dec, s, p);
      TryMatchTrimmedArgumentValueTotal(dec, s, name.pos);
    }
  }

  lemma {:induction false} TryMatchTrimmedArgumentValueTotal(dec: Decoder, s: seq<byte>, p: nat)
    requires Sound(dec) && p <= |s| && ValidFrom(dec, s, p)
    ensures TryMatchTrimmedArgumentValue(Corrected, dec, s, p).Done?
    ensures ValidFrom(dec, s, TryMatchTrimmedArgumentValue(Corrected, dec, s, p).pos)
    decreases |s| - p, 7
  {
    var w := PU.FirstNonWhitespace(s, p);
    ValidAcrossWhitespace(dec, s, p, w);
    MatchContentSequenceTotal(dec, s, ArgumentValue, w);
  }

  lemma {:induction false} TryMatchBlockTotal(dec: Decoder, s: seq<byte>, pos: nat)
    requires Sound(dec) && pos <= |s| && ValidFrom(dec, s, pos)
    ensures TryMatchBlock(Corrected, dec, s, pos).Done?
    ensures ValidFrom(dec, s, TryMatchBlock(Corrected, dec, s, pos).pos)
    decreases |s| - pos, 0
  {
    if pos < |s| && s[pos] == '{' {
      ValidPastAscii(dec, s, pos, pos);
      MatchContentSequenceTotal(dec, s, BlockContent, pos + 1);
      var content := MatchContentSequence(Corrected, dec, s, BlockContent, pos + 1);
      if content.pos < |s| && s[content.pos] == '}' {
        ValidPastAscii(dec, s, content.pos, content.pos);
      }
    }
  }

  // ---------------------------------------------------------------------
  // The document.

  /** Whatever the parser produces, in either revision, is a balanced
    * stream framed by `push_document` and `pop_document`, and its
    * instructions advance over every source byte except the braces lost to
    * failed block attempts. */
  lemma ParseShape(v: Revision, s: seq<byte>)
    requires Parse(v, s).Done?
    ensures Balanced(EmitDocument(Parse(v, s).value))
    ensures Width(EmitDocument(Parse(v, s).value)) + PiecesLost(Parse(v, s).value) == |s|
  {
    DocumentShape(Parse(v, s).value);
    DocumentCoverage(Parse(v, s).value);
  }

  /** On valid UTF-8 the corrected parser never fails an assertion, and
    * the instructions it writes advance over exactly the source. */
  lemma ParseValid(s: seq<byte>)
    requires U.Valid(s)
    ensures Parse(Corrected, s).Done?
    ensures Width(EmitDocument(Parse(Corrected, s).value)) == |s|
    ensures Balanced(EmitDocument(Parse(Corrected, s).value))
  {
    ValidFromStart(s);
    DecodeAndLengthSound();
    MatchContentSequenceTotal(U.DecodeAndLength, s, Document, 0);
    ParseShape(Corrected, s);
  }
}
