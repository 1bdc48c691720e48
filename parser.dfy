/*
 * The parser of src/main/cpp/parse.cpp as the object it is: a cursor `pos`
 * over the source and an output vector `out` that the `match_*` and
 * `try_match_*` methods advance and append to.  The methods here are the
 * ones that work by loops and in-place updates on that state: matching
 * whitespace, names, text, escape sequences and argument names, and
 * trimming the last `text` instruction.  Each is proved to do what the
 * function of the same name in `ParseSpec` describes: it leaves `pos`
 * where that function's outcome ends and appends exactly the instructions
 * `ParseTree.Emit*` gives for the node it recognised.
 *
 * A method's `crash` result is true when one of the parser's assertions
 * fails; the state is then unspecified, as the C++ code does not go on.
 */
module Parsing {
  import opened Chars
  import opened Instructions
  import opened ParseTree
  import opened ParseSpec
  import U = Unicode
  import PU = ParseUtils

  // ---------------------------------------------------------------------
  // How the loops' progress relates to the specification functions.

  /** `r`, a count of code points matched from some later position, seen
    * from `k` bytes earlier. */
  function Shift(k: nat, r: Outcome<nat>): Outcome<nat>
  {
    if r.Crash? then Crash else Done(k + r.value, r.pos)
  }

  /** One accepted code point of `match_char_sequence`: a sound decoder's
    * length stays inside the source, and the count goes on from there. */
  lemma MatchCodePointsStep(isName: int -> bool, dec: Decoder, s: seq<byte>, i: nat)
    requires Sound(dec)
    requires i < |s| && dec(s[i..]).Success? && isName(dec(s[i..]).value.codePoint)
    ensures 1 <= dec(s[i..]).value.length <= |s| - i
    ensures var j := i + dec(s[i..]).value.length;
      ParseSpec.MatchCodePoints(isName, dec, s, i) == Shift(j - i, ParseSpec.MatchCodePoints(isName, dec, s, j))
  {
    assert DecodedLength(dec, s[i..]) == dec(s[i..]).value.length;
  }

  /** One iteration of the text loop, as `ScanText` takes it. */
  lemma ScanUnfold(v: Revision, dec: Decoder, s: seq<byte>, ctx: ContentContext, i: nat, lv: BracketLevels)
    requires i < |s|
    ensures ScanText(v, dec, s, ctx, i, lv)
      == match ScanStep(v, dec, s, ctx, i, lv)
         case Undecodable => Crash
         case Stop(l) => Done(l, i)
         case Continue(l) => ScanText(v, dec, s, ctx, i + 1, l)
  {
  }

  /** What `trim_trailing_whitespace_in_matched_content` does to `out`
    * when the cursor is at `pos`: a last `text` instruction loses its
    * trailing whitespace to a `skip`, or becomes a `skip` when it is all
    * whitespace; any other last instruction is left alone. */
  function TrimLast(out: seq<Instruction>, s: seq<byte>, pos: nat): seq<Instruction>
    requires out != [] && pos <= |s|
    requires out[|out| - 1].kind == Text ==> out[|out| - 1].n <= pos
  {
    var last := out[|out| - 1];
    if last.kind != Text then out
    else
      var n := last.n;
      var k := TrimmedLength(s[pos - n..pos]);
      if k == 0 then out[..|out| - 1] + [Instruction(Skip, n)]
      else if k < n then out[..|out| - 1] + [Instruction(Text, k), Instruction(Skip, n - k)]
      else out
  }

  /** The last instruction of a piece sequence is `text` exactly when its
    * last piece is text. */
  lemma LastEmitted(ps: seq<Piece>)
    requires ps != []
    ensures EmitPieces(ps) != []
    ensures EmitPieces(ps)[|EmitPieces(ps)| - 1].kind == Text <==> ps[|ps| - 1].TextPiece?
    ensures ps[|ps| - 1].TextPiece? ==>
      EmitPieces(ps) == EmitPieces(ps[..|ps| - 1]) + [Instruction(Text, ps[|ps| - 1].length)]
  {
    assert ps == ps[..|ps| - 1] + [ps[|ps| - 1]];
    EmitPiecesSnoc(ps[..|ps| - 1], ps[|ps| - 1]);
  }

  /** Trimming the instructions of an argument value's content is what
    * `EmitTrimmed` describes. */
  lemma TrimLastEmitted(prefix: seq<Instruction>, s: seq<byte>, pos: nat, ps: seq<Piece>)
    requires prefix != [] && prefix[|prefix| - 1].kind != Text
    requires pos <= |s| && PiecesWidth(ps) <= pos
    ensures prefix + EmitPieces(ps) != []
    ensures var o := prefix + EmitPieces(ps);
      o[|o| - 1].kind == Text ==> o[|o| - 1].n <= pos
    ensures TrimLast(prefix + EmitPieces(ps), s, pos) == prefix + EmitTrimmed(ps, TrimOf(s, pos, ps))
  {
    if ps == [] {
      assert prefix + EmitPieces(ps) == prefix;
    } else {
      var init, x := ps[..|ps| - 1], ps[|ps| - 1];
      if x.TextPiece? {
        TextLast(prefix, ps);
        TrimLastEmittedText(prefix, s, pos, init, x.length);
      } else {
        TrimLastEmittedOther(prefix, s, pos, ps);
      }
    }
  }

  /** Content whose last piece is text, split before that piece. */
  lemma TextLast(prefix: seq<Instruction>, ps: seq<Piece>)
    requires ps != [] && ps[|ps| - 1].TextPiece?
    ensures var init, n := ps[..|ps| - 1], ps[|ps| - 1].length;
      ps == init + [TextPiece(n)] && PiecesWidth(ps) == PiecesWidth(init) + n
      && prefix + EmitPieces(ps) == prefix + EmitPieces(init) + [Instruction(Text, n)]
  {
    var init, x := ps[..|ps| - 1], ps[|ps| - 1];
    assert ps == init + [x];
    PiecesWidthSnoc(init, x);
    EmitPiecesSnoc(init, x);
  }

  /** `TrimLastEmitted` for content whose last piece is not text. */
  lemma TrimLastEmittedOther(prefix: seq<Instruction>, s: seq<byte>, pos: nat, ps: seq<Piece>)
    requires ps != [] && !ps[|ps| - 1].TextPiece?
    requires pos <= |s| && PiecesWidth(ps) <= pos
    ensures var o := prefix + EmitPieces(ps);
      o != [] && o[|o| - 1].kind != Text && TrimLast(o, s, pos) == o
    ensures TrimOf(s, pos, ps) == Untrimmed && EmitTrimmed(ps, Untrimmed) == EmitPieces(ps)
  {
    LastEmitted(ps);
    var o := prefix + EmitPieces(ps);
    assert o[|o| - 1] == EmitPieces(ps)[|EmitPieces(ps)| - 1];
  }

  /** `TrimLastEmitted` for content whose last piece is `n` bytes of text. */
  lemma TrimLastEmittedText(prefix: seq<Instruction>, s: seq<byte>, pos: nat, init: seq<Piece>, n: nat)
    requires n <= pos <= |s| && PiecesWidth(init + [TextPiece(n)]) <= pos
    ensures TrimLast(prefix + EmitPieces(init) + [Instruction(Text, n)], s, pos)
      == prefix + EmitTrimmed(init + [TextPiece(n)], TrimOf(s, pos, init + [TextPiece(n)]))
  {
    var ps := init + [TextPiece(n)];
    var pre := prefix + EmitPieces(init);
    PiecesWidthSnoc(init, TextPiece(n));
    var k := TrimmedLength(s[pos - n..pos]);
    TrimLastText(pre, s, pos, n);
    TrimmedText(prefix, EmitPieces(init), k, n);
    assert ps[..|ps| - 1] == init;
    var t := TrimOf(s, pos, ps);
    EmitTrimmedText(init, n, t);
    if k == 0 {
      assert t == AllWhitespace;
    } else if k < n {
      assert t == SplitAt(k);
    } else {
      assert t == Untrimmed;
    }
  }

  /** `TrimLast` on a last `text` instruction of `n` bytes. */
  lemma TrimLastText(pre: seq<Instruction>, s: seq<byte>, pos: nat, n: nat)
    requires n <= pos <= |s|
    ensures var k := TrimmedLength(s[pos - n..pos]);
      TrimLast(pre + [Instruction(Text, n)], s, pos)
      == if k == 0 then pre + [Instruction(Skip, n)]
         else if k < n then pre + [Instruction(Text, k), Instruction(Skip, n - k)]
         else pre + [Instruction(Text, n)]
  {
    var o := pre + [Instruction(Text, n)];
    var k := TrimmedLength(s[pos - n..pos]);
    assert o[|o| - 1] == Instruction(Text, n);
    assert o[..|o| - 1] == pre;
    if k == 0 {
      assert TrimLast(o, s, pos) == pre + [Instruction(Skip, n)];
    } else if k < n {
      assert TrimLast(o, s, pos) == pre + [Instruction(Text, k), Instruction(Skip, n - k)];
    } else {
      assert TrimLast(o, s, pos) == o;
    }
  }

  /** `EmitTrimmed` on content whose last piece is `n` bytes of text. */
  lemma EmitTrimmedText(init: seq<Piece>, n: nat, trim: Trim)
    ensures EmitTrimmed(init + [TextPiece(n)], trim)
      == match trim
         case Untrimmed => EmitPieces(init) + [Instruction(Text, n)]
         case AllWhitespace => EmitPieces(init) + [Instruction(Skip, n)]
         case SplitAt(k) =>
           if k <= n then EmitPieces(init) + [Instruction(Text, k), Instruction(Skip, n - k)]
           else EmitPieces(init) + [Instruction(Text, n)]
  {
    var ps := init + [TextPiece(n)];
    assert ps[..|ps| - 1] == init;
  }

  /** The same instructions, grouped as `EmitTrimmed` groups them. */
  lemma TrimmedText(prefix: seq<Instruction>, init: seq<Instruction>, k: nat, n: nat)
    requires k <= n
    ensures prefix + init + [Instruction(Skip, n)] == prefix + (init + [Instruction(Skip, n)])
    ensures prefix + init + [Instruction(Text, k), Instruction(Skip, n - k)]
      == prefix + (init + [Instruction(Text, k), Instruction(Skip, n - k)])
    ensures prefix + init + [Instruction(Text, n)] == prefix + (init + [Instruction(Text, n)])
  {
  }

  // ---------------------------------------------------------------------

  /** `Parser::Scoped_Attempt`: remembers a parser's position and output
    * size; `Abort` restores them, `Commit` keeps what was done, and the
    * destructor `End` aborts an attempt that was neither. */
  class ScopedAttempt {
    /** `m_self`, which is null once the attempt is committed or aborted:
      * the parser, and whether the pointer is still set. */
    const self: Parser
    var active: bool
    const initialPos: nat
    const initialSize: nat

    constructor (p: Parser)
      ensures self == p && active && initialPos == p.pos && initialSize == |p.out|
    {
      self := p;
      active := true;
      initialPos := p.pos;
      initialSize := |p.out|;
    }

    method Commit()
      requires active
      modifies this
      ensures !active
    {
      active := false;
    }

    method Abort()
      requires active && |self.out| >= initialSize && initialPos <= |self.source|
      modifies this, self
      ensures !active
      ensures self.pos == initialPos && self.out == old(self.out)[..initialSize]
    {
      self.pos := initialPos;
      self.out := self.out[..initialSize];
      active := false;
    }

    /** `~Scoped_Attempt`. */
    method End()
      requires active ==> |self.out| >= initialSize && initialPos <= |self.source|
      modifies this, self
      ensures !active
      ensures old(active) ==> self.pos == initialPos && self.out == old(self.out)[..initialSize]
      ensures !old(active) ==> self.pos == old(self.pos) && self.out == old(self.out)
    {
      if active {
        Abort();
      }
    }
  }

  /** `Parser`: the source, the cursor `m_pos` and the output `m_out`. */
  class Parser {
    /** The revision of the code the methods follow (see ParseSpec). */
    const revision: Revision
    /** `utf8::decode_and_length`, as in ParseSpec. */
    const decode: Decoder
    const source: seq<byte>
    var pos: nat
    var out: seq<Instruction>

    constructor (revision: Revision, decode: Decoder, out: seq<Instruction>, source: seq<byte>)
      ensures this.revision == revision && this.decode == decode && this.source == source
      ensures this.out == out && pos == 0
    {
      this.revision := revision;
      this.decode := decode;
      this.source := source;
      this.out := out;
      pos := 0;
    }


    // -------------------------------------------------------------------
    // Single bytes.

    /** `expect(char8_t)`. */
    method Expect(c: byte) returns (b: bool)
      requires pos <= |source|
      modifies this
      ensures b == (old(pos) < |source| && source[old(pos)] == c)
      ensures pos == old(pos) + (if b then 1 else 0) && out == old(out)
    {
      b := pos < |source| && source[pos] == c;
      if b {
        pos := pos + 1;
      }
    }

    /** `match_whitespace`: ASCII whitespace, one byte at a time. */
    method MatchWhitespace() returns (n: nat)
      requires pos <= |source|
      modifies this
      ensures pos == PU.FirstNonWhitespace(source, old(pos)) && n == pos - old(pos) && out == old(out)
    {
      var initial := pos;
      while pos < |source| && PU.IsWs(source[pos])
        invariant initial <= pos <= |source| && out == old(out)
        invariant PU.FirstNonWhitespace(source, initial) == PU.FirstNonWhitespace(source, pos)
        decreases |source| - pos
      {
        // `expect` asserts that what it accepts is ASCII.
        assert source[pos] as int < 0x80;
        pos := pos + 1;
      }
      n := pos - initial;
    }

    /** `expect` with a predicate on code points: decodes at the cursor and
      * advances past the code point when `isName` accepts it; a sequence
      * that does not decode fails the assertion in `peek_code_point`. */
    method ExpectCodePoint(isName: int -> bool) returns (crash: bool, b: bool)
      requires pos <= |source| && Sound(decode)
      modifies this
      ensures crash == (old(pos) < |source| && !DecodesAt(decode, source, old(pos)))
      ensures b ==> !crash && old(pos) < |source| && isName(CodePointAt(decode, source, old(pos)))
      ensures var r := ParseSpec.MatchCodePoints(isName, decode, source, old(pos));
        (crash ==> r.Crash?)
        && (!crash && !b ==> pos == old(pos) && r == Done(0, old(pos)))
        && (b ==> old(pos) < pos <= |source|)
        && (b ==> r == Shift(pos - old(pos), ParseSpec.MatchCodePoints(isName, decode, source, pos)))
      ensures out == old(out)
    {
      if pos == |source| {
        return false, false;
      }
      var d := decode(source[pos..]);
      if d.Failure? {
        return true, false;
      }
      if !isName(d.value.codePoint) {
        return false, false;
      }
      MatchCodePointsStep(isName, decode, source, pos);
      pos := pos + d.value.length;
      return false, true;
    }

    /** `match_char_sequence` over code points: `expect` until it fails. */
    method MatchCodePoints(isName: int -> bool) returns (crash: bool, n: nat)
      requires pos <= |source| && Sound(decode)
      modifies this
      ensures var r := ParseSpec.MatchCodePoints(isName, decode, source, old(pos));
        crash == r.Crash? && (!crash ==> pos == r.pos && n == r.value) && out == old(out)
    {
      var initial := pos;
      ghost var goal := ParseSpec.MatchCodePoints(isName, decode, source, initial);
      var b := true;
      while b
        invariant initial <= pos <= |source| && out == old(out)
        invariant b ==> goal == Shift(pos - initial, ParseSpec.MatchCodePoints(isName, decode, source, pos))
        invariant !b ==> goal == Done(pos - initial, pos)
        decreases if b then |source| - pos + 1 else 0
      {
        crash, b := ExpectCodePoint(isName);
        if crash {
          return true, 0;
        }
      }
      return false, pos - initial;
    }

    /** `match_directive_name`. */
    method MatchDirectiveName() returns (crash: bool, n: nat)
      requires pos <= |source| && Sound(decode)
      modifies this
      ensures var r := ParseSpec.MatchDirectiveName(decode, source, old(pos));
        crash == r.Crash? && (!crash ==> pos == r.pos && n == r.value) && out == old(out)
    {
      if pos < |source| && IsAsciiDigit(source[pos] as int) {
        return false, 0;
      }
      crash, n := MatchCodePoints(IsMmmlDirectiveNameCharacter);
    }

    /** `match_argument_name`. */
    method MatchArgumentName() returns (crash: bool, n: nat)
      requires pos <= |source| && Sound(decode)
      modifies this
      ensures var r := ParseSpec.MatchArgumentName(decode, source, old(pos));
        crash == r.Crash? && (!crash ==> pos == r.pos && n == r.value) && out == old(out)
    {
      if pos < |source| && IsAsciiDigit(source[pos] as int) {
        return false, 0;
      }
      crash, n := MatchCodePoints(IsMmmlArgumentNameCharacter);
    }


    /** Whitespace before an argument name or value, covered by a `skip`
      * when there is any. */
    method SkipWhitespace() returns (leading: nat)
      requires pos <= |source|
      modifies this
      ensures pos == PU.FirstNonWhitespace(source, old(pos)) && leading == pos - old(pos)
      ensures out == old(out) + SkipIf(leading)
    {
      leading := MatchWhitespace();
      if leading != 0 {
        out := out + [Instruction(Skip, leading)];
      }
    }

    // -------------------------------------------------------------------
    // Content.

    /** The rest of `try_match_content` after its escape and directive
      * attempts: the bracket levels are passed in and handed back, and a
      * non-empty run of text becomes one `text` instruction. */
    method MatchText(ctx: ContentContext, levels: BracketLevels)
      returns (crash: bool, success: bool, levelsAfter: BracketLevels)
      requires pos <= |source|
      modifies this
      ensures var r := ParseSpec.MatchText(revision, decode, source, ctx, old(pos), levels);
        crash == r.Crash? && (!crash ==> success == r.value.piece.Some? && levelsAfter == r.value.levels
                                         && pos == r.pos && out == old(out) + (if success then EmitPiece(r.value.piece.value) else []))
    {
      var initial := pos;
      crash, levelsAfter := ScanText(ctx, levels);
      if crash {
        return true, false, levelsAfter;
      }
      if pos == initial {
        return false, false, levelsAfter;
      }
      out := out + [Instruction(Text, pos - initial)];
      success := true;
    }

    /** The text loop of `try_match_content`: it advances the cursor to
      * where the text ends. */
    method ScanText(ctx: ContentContext, levels: BracketLevels) returns (crash: bool, levelsAfter: BracketLevels)
      requires pos <= |source|
      modifies this
      ensures var r := ParseSpec.ScanText(revision, decode, source, ctx, old(pos), levels);
        crash == r.Crash? && (!crash ==> levelsAfter == r.value && pos == r.pos) && out == old(out)
    {
      var initial := pos;
      var lv := levels;
      while pos < |source|
        invariant initial <= pos <= |source| && out == old(out)
        invariant ParseSpec.ScanText(revision, decode, source, ctx, initial, levels)
          == ParseSpec.ScanText(revision, decode, source, ctx, pos, lv)
        decreases |source| - pos
      {
        var step := TextStep(ctx, lv);
        ScanUnfold(revision, decode, source, ctx, pos, lv);
        match step
        case Undecodable =>
          return true, lv;
        case Stop(next) =>
          lv := next;
          break;
        case Continue(next) =>
          lv := next;
          pos := pos + 1;
      }
      return false, lv;
    }

    /** One iteration of the text loop at the cursor: whether the byte
      * there ends the text, with the bracket levels after it. */
    method TextStep(ctx: ContentContext, levels: BracketLevels) returns (step: Step)
      requires pos < |source|
      ensures step == ScanStep(revision, decode, source, ctx, pos, levels)
    {
      var c := source[pos];
      var lv := levels;
      if c == '\\' {
        if pos + 1 == |source| {
          // A backslash at the end of the source is text.
          return Continue(lv);
        }
        if IsMmmlEscapeable(source[pos + 1] as int) {
          return Stop(lv);
        }
        var next := decode(source[pos + 1..]);
        if next.Failure? {
          return Undecodable;
        }
        if IsMmmlDirectiveNameCharacter(next.value.codePoint)
          && (revision == AsWritten || !IsAsciiDigit(source[pos + 1] as int))
        {
          return Stop(lv);
        }
        return Continue(lv);
      }
      if ctx == Document {
        return Continue(lv);
      }
      if ctx == ArgumentValue {
        if c == ',' {
          return Stop(lv);
        }
        if c == '[' {
          lv := lv.(square := lv.square + 1);
        }
        if c == ']' {
          var was := lv.square;
          lv := lv.(square := Decremented(was));
          if was == 0 {
            return Stop(lv);
          }
        }
      }
      if c == '{' {
        lv := lv.(brace := lv.brace + 1);
      }
      if c == '}' {
        var was := lv.brace;
        lv := lv.(brace := Decremented(was));
        if was == 0 {
          return Stop(lv);
        }
      }
      return Continue(lv);
    }

    /** `try_match_escaped`. */
    method TryMatchEscaped() returns (success: bool)
      requires pos <= |source|
      modifies this
      ensures success == EscapeAt(revision, source, old(pos))
      ensures pos == old(pos) + (if success then 2 else 0)
      ensures out == old(out) + (if success then EmitPiece(EscapePiece) else [])
    {
      var fits := if revision == AsWritten then pos + 2 < |source| else pos + 2 <= |source|;
      if fits && source[pos] == '\\' && IsMmmlEscapeable(source[pos + 1] as int) {
        pos := pos + 2;
        out := out + [Instruction(Escape, 2)];
        return true;
      }
      return false;
    }


    // -------------------------------------------------------------------
    // Arguments.

    /** `try_match_argument_name`: whitespace, a name, whitespace and `=`;
      * the attempt is given back, output and all, when any of them is
      * missing. */
    method TryMatchArgumentName() returns (crash: bool, named: bool)
      requires pos <= |source| && Sound(decode)
      modifies this
      ensures var r := ParseSpec.TryMatchArgumentName(decode, source, old(pos));
        crash == r.Crash? && (!crash ==> named == r.value.Name? && pos == r.pos && out == old(out) + EmitName(r.value))
    {
      var p0, out0 := pos, out;
      var leading := SkipWhitespace();
      if pos == |source| {
        pos, out := p0, out0;
        return false, false;
      }
      ghost var w := pos;
      assert w == PU.FirstNonWhitespace(source, p0);
      var n;
      crash, n := MatchArgumentName();
      if crash {
        return true, false;
      }
      assert pos == w + n;
      assert ParseSpec.TryMatchArgumentName(decode, source, p0) == NameAndEquals(source, p0, w, n);
      // The name is emitted before its length is checked.
      out := out + [Instruction(ArgumentName, n)];
      named := AfterName(p0, out0, n);
    }

    /** The rest of `try_match_argument_name` once a name of `n` bytes was
      * matched and emitted in the attempt that began at `p0` with output
      * `out0`. */
    method AfterName(p0: nat, out0: seq<Instruction>, n: nat) returns (named: bool)
      requires p0 + n <= pos <= |source|
      requires out == out0 + SkipIf(pos - n - p0) + [Instruction(ArgumentName, n)]
      modifies this
      ensures var r := NameAndEquals(source, p0, old(pos) - n, n);
        named == r.value.Name? && pos == r.pos && out == out0 + EmitName(r.value)
    {
      if n == 0 {
        pos, out := p0, out0;
        return false;
      }
      var trailing := MatchWhitespace();
      if pos == |source| {
        pos, out := p0, out0;
        return false;
      }
      var b := Expect('=');
      if !b {
        pos, out := p0, out0;
        return false;
      }
      out := out + [Instruction(Skip, trailing + 1)];
      return true;
    }

    /** `trim_trailing_whitespace_in_matched_content`. */
    method TrimTrailingWhitespace()
      requires pos <= |source| && out != []
      requires out[|out| - 1].kind == Text ==> out[|out| - 1].n <= pos
      modifies this
      ensures pos == old(pos) && out == TrimLast(old(out), source, pos)
    {
      var last := out[|out| - 1];
      if last.kind != Text {
        return;
      }
      var total := last.n;
      var kept := TrimmedLength(source[pos - total..pos]);
      if kept == 0 {
        out := out[|out| - 1 := Instruction(Skip, total)];
      } else if kept < total {
        out := out[|out| - 1 := Instruction(Text, kept)] + [Instruction(Skip, total - kept)];
      }
    }
  }
}
