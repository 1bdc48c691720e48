/*
 * What `parse` (src/main/cpp/parse.cpp) does, as functions over the source
 * and a position: each `try_match_*` of the parser becomes a function that
 * returns the recognised node (or none) and the position after it.
 *
 * `Crash` stands for a failed `MMML_ASSERT`.  `Revision` selects between
 * the code as written and the corrections listed under "Findings" in
 * README.md; the two revisions differ only where `v` is inspected.
 */
module ParseSpec {
  import opened Options
  import opened Chars
  import opened Instructions
  import opened ParseTree
  import U = Unicode
  import R = Results
  import PU = ParseUtils

  datatype Revision = AsWritten | Corrected

  /** `Content_Context`. */
  datatype ContentContext = Document | ArgumentValue | BlockContent

  /** `is_terminated_by`: which byte ends a content sequence. */
  predicate IsTerminatedBy(ctx: ContentContext, c: byte)
  {
    match ctx
    case ArgumentValue => c == ',' || c == ']' || c == '}'
    case BlockContent => c == '}'
    case Document => false
  }

  /** `std::size_t`'s largest value, what a post-decrement of 0 leaves. */
  const SIZE_MAX: nat := 0xFFFF_FFFF_FFFF_FFFF

  /** `Bracket_Levels`: unmatched `[` and `{` seen by a content sequence. */
  datatype BracketLevels = BracketLevels(square: nat, brace: nat)

  const NO_LEVELS := BracketLevels(0, 0)

  /** The value left by `x--` on a `std::size_t`. */
  function Decremented(x: nat): nat
  {
    if x == 0 then SIZE_MAX else x - 1
  }

  /** The result of a matcher: a failed assertion, or a value and the
    * position after what was consumed. */
  datatype Outcome<T> = Crash | Done(value: T, pos: nat)

  /** The decoder the parser calls, `utf8::decode_and_length`.  The
    * functions below take it as a parameter so that their proofs need only
    * the facts `Sound` collects, not the bit patterns of UTF-8. */
  type Decoder = seq<byte> -> R.Result<U.CodePointAndLength, U.ErrorCode>

  /** The length of what `dec` decodes at the start of `str`, 0 when it
    * fails. */
  function DecodedLength(dec: Decoder, str: seq<byte>): int
  {
    if dec(str).Success? then dec(str).value.length else 0
  }

  /** A decoded sequence is non-empty and within the input, an ASCII unit
    * is a sequence of its own, and no later unit of a sequence is ASCII. */
  ghost predicate Sound(dec: Decoder)
  {
    forall str: seq<byte> {:trigger DecodedLength(dec, str)} :: dec(str).Success? ==>
      1 <= DecodedLength(dec, str) <= |str|
      && (str[0] as int < 0x80 ==> DecodedLength(dec, str) == 1)
      && (forall k :: 1 <= k < DecodedLength(dec, str) ==> str[k] as int >= 0x80)
  }

  lemma DecodeAndLengthSound()
    ensures Sound(U.DecodeAndLength)
  {
    forall str: seq<byte> | U.DecodeAndLength(str).Success?
      ensures 1 <= U.DecodeAndLength(str).value.length <= |str|
      ensures str[0] as int < 0x80 ==> U.DecodeAndLength(str).value.length == 1
      ensures forall k :: 1 <= k < U.DecodeAndLength(str).value.length ==> str[k] as int >= 0x80
    {
      U.DecodeAndLengthCases(str);
      U.SequenceLengthByPattern(str[0]);
    }
  }

  /** `s` splits into sequences that `dec` accepts. */
  predicate ValidWith(dec: Decoder, s: seq<byte>)
    decreases |s|
  {
    s == [] ||
    (dec(s).Success? && 1 <= dec(s).value.length <= |s| && ValidWith(dec, s[dec(s).value.length..]))
  }

  /** With the parser's decoder this is validity as `utf8::is_valid`
    * checks it. */
  lemma {:induction false} ValidIsValidWith(s: seq<byte>)
    ensures U.Valid(s) <==> ValidWith(U.DecodeAndLength, s)
    decreases |s|
  {
    if s != [] {
      U.DecodeAndLengthCases(s);
      if U.DecodeAndLength(s).Success? {
        ValidIsValidWith(s[U.DecodeAndLength(s).value.length..]);
      }
    }
  }

  /** `dec` succeeds on the rest of `s` from `i`. */
  predicate DecodesAt(dec: Decoder, s: seq<byte>, i: nat)
    requires i <= |s|
  {
    dec(s[i..]).Success?
  }

  function CodePointAt(dec: Decoder, s: seq<byte>, i: nat): int
    requires i <= |s| && DecodesAt(dec, s, i)
  {
    dec(s[i..]).value.codePoint
  }

  // ---------------------------------------------------------------------
  // Facts about valid input used below.

  /** `s` is valid from `i` on. */
  predicate ValidFrom(dec: Decoder, s: seq<byte>, i: nat)
    requires i <= |s|
    decreases |s| - i
  {
    i == |s| ||
    (dec(s[i..]).Success? && 1 <= dec(s[i..]).value.length <= |s| - i
     && ValidFrom(dec, s, i + dec(s[i..]).value.length))
  }

  lemma {:induction false} ValidFromIsValidWith(dec: Decoder, s: seq<byte>, i: nat)
    requires i <= |s|
    ensures ValidFrom(dec, s, i) <==> ValidWith(dec, s[i..])
    decreases |s| - i
  {
    if i < |s| && dec(s[i..]).Success? && 1 <= dec(s[i..]).value.length <= |s| - i {
      var len := dec(s[i..]).value.length;
      assert s[i..][len..] == s[i + len..];
      ValidFromIsValidWith(dec, s, i + len);
    }
  }

  /** With the parser's decoder, validity from the start is validity as
    * `utf8::is_valid` checks it. */
  lemma ValidFromStart(s: seq<byte>)
    ensures U.Valid(s) <==> ValidFrom(U.DecodeAndLength, s, 0)
  {
    ValidIsValidWith(s);
    ValidFromIsValidWith(U.DecodeAndLength, s, 0);
    assert s[0..] == s;
  }

  /** In valid input an ASCII unit starts a sequence, so the input is valid
    * from there and after it. */
  lemma {:induction false} ValidPastAscii(dec: Decoder, s: seq<byte>, a: nat, j: nat)
    requires Sound(dec) && a <= j < |s| && ValidFrom(dec, s, a) && s[j] as int < 0x80
    ensures ValidFrom(dec, s, j) && ValidFrom(dec, s, j + 1)
    decreases j - a
  {
    if a < j {
      var len := DecodedLength(dec, s[a..]);
      // The unit at `j` is ASCII, so it does not continue the sequence
      // that starts at `a`.
      assert s[a..][j - a] == s[j];
      ValidPastAscii(dec, s, a + len, j);
    } else {
      // An ASCII unit decodes on its own: the next sequence starts at `j + 1`.
      assert DecodedLength(dec, s[j..]) == DecodedLength(dec, s[j..]);
    }
  }

  lemma ValidAcrossWhitespace(dec: Decoder, s: seq<byte>, a: nat, w: nat)
    requires Sound(dec) && a <= w <= |s| && PU.AllWhitespace(s, a, w) && ValidFrom(dec, s, a)
    ensures ValidFrom(dec, s, w)
  {
    if a < w {
      ValidPastAscii(dec, s, a, w - 1);
    }
  }

  lemma ValidStep(dec: Decoder, s: seq<byte>, i: nat)
    requires i < |s| && ValidFrom(dec, s, i)
    ensures DecodesAt(dec, s, i) && i + dec(s[i..]).value.length <= |s|
    ensures ValidFrom(dec, s, i + dec(s[i..]).value.length)
  {
  }

  // ---------------------------------------------------------------------
  // Names.

  /** `match_char_sequence` over code points: decodes and accepts code
    * points while `isName` holds; a sequence that does not decode fails
    * the assertion in `peek_code_point`. */
  function MatchCodePoints(isName: int -> bool, dec: Decoder, s: seq<byte>, i: nat): (r: Outcome<nat>)
    requires i <= |s|
    ensures r.Done? ==> r.pos == i + r.value <= |s|
    ensures r.Done? && i < |s| && DecodesAt(dec, s, i) && isName(CodePointAt(dec, s, i)) ==> r.value > 0
    decreases |s| - i
  {
    if i == |s| then Done(0, i)
    else
      var d := dec(s[i..]);
      if d.Failure? then Crash
      else if !isName(d.value.codePoint) then Done(0, i)
      // Not reached with `decode_and_length`, whose lengths are in range
      // (`Sound`).
      else if d.value.length <= 0 || i + d.value.length > |s| then Crash
      else
        var rest := MatchCodePoints(isName, dec, s, i + d.value.length);
        if rest.Crash? then Crash else Done(d.value.length + rest.value, rest.pos)
  }

  /** `match_directive_name`: nothing when an ASCII digit comes first. */
  function MatchDirectiveName(dec: Decoder, s: seq<byte>, i: nat): (r: Outcome<nat>)
    requires i <= |s|
    ensures r.Done? ==> r.pos == i + r.value <= |s|
    ensures i < |s| && IsAsciiDigit(s[i] as int) ==> r == Done(0, i)
    ensures r.Done? && i < |s| && !IsAsciiDigit(s[i] as int) && DecodesAt(dec, s, i)
      && IsMmmlDirectiveNameCharacter(CodePointAt(dec, s, i))
      ==> r.value > 0
  {
    if i < |s| && IsAsciiDigit(s[i] as int) then Done(0, i)
    else MatchCodePoints(IsMmmlDirectiveNameCharacter, dec, s, i)
  }

  /** `match_argument_name`. */
  function MatchArgumentName(dec: Decoder, s: seq<byte>, i: nat): (r: Outcome<nat>)
    requires i <= |s|
    ensures r.Done? ==> r.pos == i + r.value <= |s|
    ensures i < |s| && IsAsciiDigit(s[i] as int) ==> r == Done(0, i)
  {
    if i < |s| && IsAsciiDigit(s[i] as int) then Done(0, i)
    else MatchCodePoints(IsMmmlArgumentNameCharacter, dec, s, i)
  }

  // ---------------------------------------------------------------------
  // Text.

  /** A backslash at `j` that the text loop of `try_match_content` stops
    * before: one followed by an escapeable character or by a directive
    * name character.  The corrected revision does not stop before an
    * ASCII digit, which `match_directive_name` refuses to start a name
    * with. */
  predicate BreaksAtBackslash(v: Revision, dec: Decoder, s: seq<byte>, j: nat)
    requires j < |s|
  {
    s[j] == '\\' && j + 1 < |s| &&
    (IsMmmlEscapeable(s[j + 1] as int) ||
     (DecodesAt(dec, s, j + 1) && IsMmmlDirectiveNameCharacter(CodePointAt(dec, s, j + 1))
      && (v == AsWritten || !IsAsciiDigit(s[j + 1] as int))))
  }

  /** What one iteration of the text loop of `try_match_content` decides
    * at byte `i`: stop before it, go on past it, or fail the assertion in
    * `peek_code_point` on what follows a backslash. */
  datatype Step = Stop(levels: BracketLevels) | Continue(levels: BracketLevels) | Undecodable

  function ScanStep(v: Revision, dec: Decoder, s: seq<byte>, ctx: ContentContext, i: nat, lv: BracketLevels)
    : (r: Step)
    requires i < |s|
    ensures r.Stop? ==> BreaksAtBackslash(v, dec, s, i) || IsTerminatedBy(ctx, s[i])
    ensures r.Continue? ==> !BreaksAtBackslash(v, dec, s, i) && !(ctx == ArgumentValue && s[i] == ',')
    ensures r.Undecodable? <==>
      s[i] == '\\' && i + 1 < |s| && !IsMmmlEscapeable(s[i + 1] as int) && !DecodesAt(dec, s, i + 1)
  {
    var c := s[i];
    if c == '\\' then
      if i + 1 == |s| then Continue(lv)
      else if IsMmmlEscapeable(s[i + 1] as int) then Stop(lv)
      else
        var next := dec(s[i + 1..]);
        if next.Failure? then Undecodable
        else if IsMmmlDirectiveNameCharacter(next.value.codePoint)
          && (v == AsWritten || !IsAsciiDigit(s[i + 1] as int))
        then Stop(lv)
        else Continue(lv)
    else if ctx == Document then Continue(lv)
    else if ctx == ArgumentValue && c == ',' then Stop(lv)
    else if ctx == ArgumentValue && c == '[' then Continue(lv.(square := lv.square + 1))
    else if ctx == ArgumentValue && c == ']' then
      if lv.square == 0 then Stop(lv.(square := SIZE_MAX))
      else Continue(lv.(square := lv.square - 1))
    else if c == '{' then Continue(lv.(brace := lv.brace + 1))
    else if c == '}' then
      if lv.brace == 0 then Stop(lv.(brace := SIZE_MAX))
      else Continue(lv.(brace := lv.brace - 1))
    else Continue(lv)
  }

  /** The text loop of `try_match_content` from `i` with bracket levels
    * `lv`; it returns the levels and the position where the text ends. */
  function ScanText(v: Revision, dec: Decoder, s: seq<byte>, ctx: ContentContext, i: nat, lv: BracketLevels)
    : (r: Outcome<BracketLevels>)
    requires i <= |s|
    ensures r.Done? ==> i <= r.pos <= |s|
    decreases |s| - i
  {
    if i == |s| then Done(lv, i)
    else
      match ScanStep(v, dec, s, ctx, i, lv)
      case Undecodable => Crash
      case Stop(l) => Done(l, i)
      case Continue(l) => ScanText(v, dec, s, ctx, i + 1, l)
  }

  /** Where the text loop stops: at a backslash that starts an escape
    * sequence or a directive, or at a byte that ends the context; every
    * byte before is text.  It fails only on a backslash before a sequence
    * that does not decode. */
  lemma {:induction false} ScanTextStops(v: Revision, dec: Decoder, s: seq<byte>, ctx: ContentContext, i: nat,
                                         lv: BracketLevels)
    requires i <= |s|
    ensures var r := ScanText(v, dec, s, ctx, i, lv);
      (r.Done? && r.pos < |s| ==> BreaksAtBackslash(v, dec, s, r.pos) || IsTerminatedBy(ctx, s[r.pos]))
      && (r.Done? ==>
            forall k | i <= k < r.pos :: !BreaksAtBackslash(v, dec, s, k) && !(ctx == ArgumentValue && s[k] == ','))
      && (r.Crash? ==>
            exists k | i <= k < |s| - 1 :: s[k] == '\\' && !IsMmmlEscapeable(s[k + 1] as int) && !DecodesAt(dec, s, k + 1))
    decreases |s| - i
  {
    if i < |s| {
      var step := ScanStep(v, dec, s, ctx, i, lv);
      if step.Continue? {
        ScanTextStops(v, dec, s, ctx, i + 1, step.levels);
      }
    }
  }

  /** `try_match_escaped`.  As written, the bound `m_pos + 2 < size` refuses
    * an escape sequence that ends the source. */
  predicate EscapeAt(v: Revision, s: seq<byte>, pos: nat)
  {
    (if v == AsWritten then pos + 2 < |s| else pos + 2 <= |s|)
    && s[pos] == '\\' && IsMmmlEscapeable(s[pos + 1] as int)
  }

  /** The length of `t` up to and including its last byte that is not
    * whitespace (`find_last_not_of(" \t\r\n\f") + 1`, 0 for none). */
  function TrimmedLength(t: seq<byte>): (k: nat)
    ensures k <= |t|
    ensures k > 0 ==> !PU.IsWs(t[k - 1])
    ensures PU.AllWhitespace(t, k, |t|)
  {
    if t == [] || !PU.IsWs(t[|t| - 1]) then |t|
    else
      var k := TrimmedLength(t[..|t| - 1]);
      assert forall j | k <= j < |t| - 1 :: t[..|t| - 1][j] == t[j];
      k
  }

  /** `trim_trailing_whitespace_in_matched_content` for content `ps` that
    * ends at `end`. */
  function TrimOf(s: seq<byte>, end: nat, ps: seq<Piece>): (t: Trim)
    requires end <= |s| && PiecesWidth(ps) <= end
    ensures t != Untrimmed ==> ps != [] && ps[|ps| - 1].TextPiece?
    ensures t.SplitAt? ==> 0 < t.keep < ps[|ps| - 1].length
  {
    if ps == [] || !ps[|ps| - 1].TextPiece? then Untrimmed
    else
      var n := ps[|ps| - 1].length;
      assert ps == ps[..|ps| - 1] + [ps[|ps| - 1]];
      PiecesWidthSnoc(ps[..|ps| - 1], ps[|ps| - 1]);
      var k := TrimmedLength(s[end - n..end]);
      if k == 0 then AllWhitespace
      else if k < n then SplitAt(k)
      else Untrimmed
  }

  // ---------------------------------------------------------------------
  // Content.

  datatype Matched = Matched(piece: Option<Piece>, levels: BracketLevels)

  datatype ValuePart = ValuePart(leading: nat, pieces: seq<Piece>, trim: Trim)

  /** `parse`: the content sequence of the whole document, decoded with
    * `utf8::decode_and_length`. */
  function Parse(v: Revision, s: seq<byte>): (r: Outcome<seq<Piece>>)
    ensures r.Done? ==> r.pos == |s| == PiecesWidth(r.value)
    ensures v == Corrected && r.Done? ==> PiecesLost(r.value) == 0
  {
    MatchContentSequence(v, U.DecodeAndLength, s, Document, 0)
  }

  /** `match_content_sequence`: content pieces until the end or a byte
    * that terminates the context.  A piece that cannot be matched before
    * that fails the assertion in the loop. */
  function MatchContentSequence(v: Revision, dec: Decoder, s: seq<byte>, ctx: ContentContext, pos: nat)
    : (r: Outcome<seq<Piece>>)
    requires pos <= |s|
    ensures r.Done? ==> r.pos == pos + PiecesWidth(r.value) <= |s|
    ensures r.Done? ==> r.pos == |s| || IsTerminatedBy(ctx, s[r.pos])
    ensures v == Corrected && r.Done? ==> PiecesLost(r.value) == 0
    decreases |s| - pos, 5
  {
    ContentLoop(v, dec, s, ctx, pos, NO_LEVELS)
  }

  function ContentLoop(v: Revision, dec: Decoder, s: seq<byte>, ctx: ContentContext, pos: nat, lv: BracketLevels)
    : (r: Outcome<seq<Piece>>)
    requires pos <= |s|
    ensures r.Done? ==> r.pos == pos + PiecesWidth(r.value) <= |s|
    ensures r.Done? ==> r.pos == |s| || IsTerminatedBy(ctx, s[r.pos])
    ensures v == Corrected && r.Done? ==> PiecesLost(r.value) == 0
    decreases |s| - pos, 4
  {
    if pos == |s| || IsTerminatedBy(ctx, s[pos]) then Done([], pos)
    else
      var m := TryMatchContent(v, dec, s, ctx, pos, lv);
      if m.Crash? || m.value.piece.None? then Crash
      else
        var rest := ContentLoop(v, dec, s, ctx, m.pos, m.value.levels);
        if rest.Crash? then Crash
        else
          var ps := [m.value.piece.value] + rest.value;
          assert ps[0] == m.value.piece.value && ps[1..] == rest.value;
          Done(ps, rest.pos)
  }

  /** `try_match_content`: an escape sequence, a directive, or text. */
  function TryMatchContent(v: Revision, dec: Decoder, s: seq<byte>, ctx: ContentContext, pos: nat, lv: BracketLevels)
    : (r: Outcome<Matched>)
    requires pos <= |s|
    ensures r.Done? ==> pos <= r.pos <= |s|
    ensures r.Done? && r.value.piece.None? ==> r.pos == pos
    ensures r.Done? && r.value.piece.Some? ==> pos < r.pos == pos + PieceWidth(r.value.piece.value)
    ensures v == Corrected && r.Done? && r.value.piece.Some? ==> PieceLost(r.value.piece.value) == 0
    decreases |s| - pos, 3
  {
    var first := TryMatchEscapedOrDirective(v, dec, s, pos);
    if first.Crash? then Crash
    else if first.value.Some? then Done(Matched(first.value, lv), first.pos)
    else MatchText(v, dec, s, ctx, pos, lv)
  }

  /** `peek('\\') && (try_match_escaped() || try_match_directive())`. */
  function TryMatchEscapedOrDirective(v: Revision, dec: Decoder, s: seq<byte>, pos: nat): (r: Outcome<Option<Piece>>)
    requires pos <= |s|
    ensures r.Done? && r.value.None? ==> r.pos == pos
    ensures r.Done? && r.value.Some? ==>
      pos < r.pos == pos + PieceWidth(r.value.value) <= |s| && s[pos] == '\\'
    ensures v == Corrected && r.Done? && r.value.Some? ==> PieceLost(r.value.value) == 0
    decreases |s| - pos, 2
  {
    if pos == |s| || s[pos] != '\\' then Done(None, pos)
    else if EscapeAt(v, s, pos) then Done(Some(EscapePiece), pos + 2)
    else TryMatchDirective(v, dec, s, pos)
  }

  /** The text loop of `try_match_content`: a text piece up to where the
    * loop stops, or nothing when it stops at once. */
  function MatchText(v: Revision, dec: Decoder, s: seq<byte>, ctx: ContentContext, pos: nat, lv: BracketLevels)
    : (r: Outcome<Matched>)
    requires pos <= |s|
    ensures r.Done? && r.value.piece.None? ==> r.pos == pos
    ensures r.Done? && r.value.piece.Some? ==> pos < r.pos <= |s| && r.value.piece.value == TextPiece(r.pos - pos)
    ensures r.Done? && r.pos < |s| ==> BreaksAtBackslash(v, dec, s, r.pos) || IsTerminatedBy(ctx, s[r.pos])
  {
    var text := ScanText(v, dec, s, ctx, pos, lv);
    ScanTextStops(v, dec, s, ctx, pos, lv);
    if text.Crash? then Crash
    else if text.pos == pos then Done(Matched(None, text.value), pos)
    else Done(Matched(Some(TextPiece(text.pos - pos)), text.value), text.pos)
  }

  /** `try_match_directive`: a backslash, a non-empty name, an optional
    * argument list and an optional block. */
  function TryMatchDirective(v: Revision, dec: Decoder, s: seq<byte>, pos: nat): (r: Outcome<Option<Piece>>)
    requires pos <= |s|
    ensures r.Done? && r.value.None? ==> r.pos == pos
    ensures r.Done? && r.value.Some? ==>
      r.value.value.DirectivePiece? && pos < r.pos == pos + PieceWidth(r.value.value) <= |s|
    ensures r.Done? && pos + 1 < |s| && s[pos] == '\\' && !IsAsciiDigit(s[pos + 1] as int)
      && DecodesAt(dec, s, pos + 1) && IsMmmlDirectiveNameCharacter(CodePointAt(dec, s, pos + 1))
      ==> r.value.Some?
    ensures v == Corrected && r.Done? && r.value.Some? ==> PieceLost(r.value.value) == 0
    decreases |s| - pos, 1
  {
    if pos == |s| || s[pos] != '\\' then Done(None, pos)
    else
      var name := MatchDirectiveName(dec, s, pos + 1);
      if name.Crash? then Crash
      else if name.value == 0 then Done(None, pos)
      else
        var args := TryMatchArgumentList(v, dec, s, name.pos);
        if args.Crash? then Crash
        else
          var block := TryMatchBlock(v, dec, s, args.pos);
          if block.Crash? then Crash
          else Done(Some(DirectivePiece(name.value, args.value, block.value)), block.pos)
  }

  /** `try_match_argument_list`: `[`, arguments each followed by `,` or
    * `]`, up to the first `]`.  When an argument cannot be matched the
    * whole list is given back. */
  function TryMatchArgumentList(v: Revision, dec: Decoder, s: seq<byte>, pos: nat): (r: Outcome<ArgumentsPart>)
    requires pos <= |s|
    ensures r.Done? ==> r.pos == pos + ArgumentsWidth(r.value) <= |s|
    ensures r.Done? && r.value.Arguments? ==> r.value.args != [] && s[pos] == '[' && s[r.pos - 1] == ']'
    ensures v == Corrected && r.Done? ==> ArgumentsLost(r.value) == 0
    decreases |s| - pos, 10
  {
    if pos == |s| || s[pos] != '[' then Done(NoArguments, pos)
    else
      var list := ArgumentLoop(v, dec, s, pos + 1);
      if list.Crash? then Crash
      else if list.value.None? then Done(NoArguments, pos)
      else Done(Arguments(list.value.value), list.pos)
  }

  /** The loop of `try_match_argument_list`, from the first argument; the
    * closing `]` is included in what it consumes. */
  function ArgumentLoop(v: Revision, dec: Decoder, s: seq<byte>, p: nat): (r: Outcome<Option<seq<ArgumentNode>>>)
    requires p <= |s|
    ensures r.Done? && r.value.None? ==> r.pos == p
    ensures r.Done? && r.value.Some? ==>
      r.value.value != [] && r.pos == p + ArgumentListWidth(r.value.value) + 1 <= |s| && s[r.pos - 1] == ']'
    ensures v == Corrected && r.Done? && r.value.Some? ==> ArgumentListLost(r.value.value) == 0
    decreases |s| - p, 9
  {
    var arg := TryMatchArgument(v, dec, s, p);
    if arg.Crash? then Crash
    else if arg.value.None? then Done(None, p)
    else ArgumentLoopAfter(v, dec, s, p, arg.value.value, arg.pos)
  }

  /** The loop after the argument `first` that spans `s[p..q]`: a `]` at
    * `q` ends the list, a `,` starts the next argument. */
  function ArgumentLoopAfter(v: Revision, dec: Decoder, s: seq<byte>, p: nat, first: ArgumentNode, q: nat)
    : (r: Outcome<Option<seq<ArgumentNode>>>)
    requires q == p + ArgumentWidth(first) < |s| && (s[q] == ',' || s[q] == ']')
    requires v == Corrected ==> PiecesLost(first.pieces) == 0
    ensures r.Done? && r.value.None? ==> r.pos == p
    ensures r.Done? && r.value.Some? ==>
      r.value.value != [] && r.pos == p + ArgumentListWidth(r.value.value) + 1 <= |s| && s[r.pos - 1] == ']'
    ensures v == Corrected && r.Done? && r.value.Some? ==> ArgumentListLost(r.value.value) == 0
    decreases |s| - p, 8
  {
    if s[q] == ']' then Done(Some([first]), q + 1)
    else PrependArgument(v, s, p, first, ArgumentLoop(v, dec, s, q + 1))
  }

  /** The argument `first` at `p`, its `,`, and the outcome `rest` of the
    * loop after that comma. */
  function PrependArgument(v: Revision, s: seq<byte>, p: nat, first: ArgumentNode, rest: Outcome<Option<seq<ArgumentNode>>>)
    : (r: Outcome<Option<seq<ArgumentNode>>>)
    requires rest.Done? && rest.value.Some? ==>
      rest.value.value != [] && rest.pos == p + ArgumentWidth(first) + 1 + ArgumentListWidth(rest.value.value) + 1 <= |s|
      && s[rest.pos - 1] == ']'
    requires v == Corrected && rest.Done? && rest.value.Some? ==>
      PiecesLost(first.pieces) == 0 && ArgumentListLost(rest.value.value) == 0
    ensures r.Done? && r.value.None? ==> r.pos == p
    ensures r.Done? && r.value.Some? ==>
      r.value.value != [] && r.pos == p + ArgumentListWidth(r.value.value) + 1 <= |s| && s[r.pos - 1] == ']'
    ensures v == Corrected && r.Done? && r.value.Some? ==> ArgumentListLost(r.value.value) == 0
  {
    if rest.Crash? then Crash
    else if rest.value.None? then Done(None, p)
    else
      var args := [first] + rest.value.value;
      assert args[0] == first && args[1..] == rest.value.value;
      assert ArgumentListWidth(args) == ArgumentWidth(args[0]) + 1 + ArgumentListWidth(args[1..]);
      Done(Some(args), rest.pos)
  }

  /** `try_match_argument`: an optional name and a value that ends before
    * `,` or `]`. */
  function TryMatchArgument(v: Revision, dec: Decoder, s: seq<byte>, p: nat): (r: Outcome<Option<ArgumentNode>>)
    requires p <= |s|
    ensures r.Done? && r.value.None? ==> r.pos == p
    ensures r.Done? && r.value.Some? ==>
      r.pos == p + ArgumentWidth(r.value.value) < |s| && (s[r.pos] == ',' || s[r.pos] == ']')
    ensures v == Corrected && r.Done? && r.value.Some? ==> PiecesLost(r.value.value.pieces) == 0
    decreases |s| - p, 7
  {
    if p == |s| then Done(None, p)
    else
      var name := TryMatchArgumentName(dec, s, p);
      if name.Crash? then Crash
      else
        var value := TryMatchTrimmedArgumentValue(v, dec, s, name.pos);
        if value.Crash? then Crash
        else if value.value.None? then Done(None, p)
        else
          var val := value.value.value;
          Done(Some(ArgumentNode(name.value, val.leading, val.pieces, val.trim)), value.pos)
  }

  /** `try_match_argument_name`: whitespace, a name that does not start
    * with a digit, whitespace and `=`; otherwise nothing is consumed. */
  function TryMatchArgumentName(dec: Decoder, s: seq<byte>, p: nat): (r: Outcome<NamePart>)
    requires p <= |s|
    ensures r.Done? ==> r.pos == p + NameWidth(r.value) <= |s|
    ensures r.Done? && r.value.Name? ==>
      r.value.length > 0 && s[r.pos - 1] == '=' && !IsAsciiDigit(s[p + r.value.leading] as int)
  {
    var w := PU.FirstNonWhitespace(s, p);
    if w == |s| then Done(NoName, p)
    else
      var name := MatchArgumentName(dec, s, w);
      if name.Crash? then Crash
      else NameAndEquals(s, p, w, name.value)
  }

  /** The rest of `try_match_argument_name` once a name of `n` bytes has
    * been matched at `w`: optional whitespace and `=`. */
  function NameAndEquals(s: seq<byte>, p: nat, w: nat, n: nat): (r: Outcome<NamePart>)
    requires p <= w <= w + n <= |s|
    ensures r.Done?
    ensures r.value.NoName? <==> r.pos == p
    ensures r.value.Name? ==>
      n > 0 && r.pos == PU.FirstNonWhitespace(s, w + n) + 1 <= |s| && s[r.pos - 1] == '='
      && r.value == Name(w - p, n, r.pos - 1 - (w + n))
  {
    if n == 0 then Done(NoName, p)
    else
      var t := PU.FirstNonWhitespace(s, w + n);
      if t == |s| || s[t] != '=' then Done(NoName, p)
      else Done(Name(w - p, n, t - (w + n)), t + 1)
  }

  /** `try_match_trimmed_argument_value`: whitespace and content; it fails
    * when the content runs into the end or a `}`. */
  function TryMatchTrimmedArgumentValue(v: Revision, dec: Decoder, s: seq<byte>, p: nat): (r: Outcome<Option<ValuePart>>)
    requires p <= |s|
    ensures r.Done? && r.value.None? ==> r.pos == p
    ensures r.Done? && r.value.Some? ==>
      r.pos == p + r.value.value.leading + PiecesWidth(r.value.value.pieces) < |s|
      && (s[r.pos] == ',' || s[r.pos] == ']')
    ensures v == Corrected && r.Done? && r.value.Some? ==> PiecesLost(r.value.value.pieces) == 0
    decreases |s| - p, 6
  {
    var w := PU.FirstNonWhitespace(s, p);
    var content := MatchContentSequence(v, dec, s, ArgumentValue, w);
    if content.Crash? then Crash
    else if content.pos == |s| || s[content.pos] == '}' then Done(None, p)
    else Done(Some(ValuePart(w - p, content.value, TrimOf(s, content.pos, content.value))), content.pos)
  }

  /** `try_match_block`: `{`, content and `}`.  As written, the `{` is
    * consumed before the attempt starts, so a block that runs into the end
    * of the source gives back its content but not its brace. */
  function TryMatchBlock(v: Revision, dec: Decoder, s: seq<byte>, pos: nat): (r: Outcome<BlockPart>)
    requires pos <= |s|
    ensures r.Done? ==> r.pos == pos + BlockWidth(r.value) <= |s|
    ensures r.Done? && r.value.Block? ==> s[pos] == '{' && s[r.pos - 1] == '}'
    ensures v == Corrected && r.Done? ==> BlockLost(r.value) == 0
    decreases |s| - pos, 0
  {
    if pos == |s| || s[pos] != '{' then Done(NoBlock, pos)
    else
      var content := MatchContentSequence(v, dec, s, BlockContent, pos + 1);
      if content.Crash? then Crash
      else if content.pos < |s| && s[content.pos] == '}' then Done(Block(content.value), content.pos + 1)
      else if v == AsWritten then Done(LostBrace, pos + 1)
      else Done(NoBlock, pos)
  }
}
