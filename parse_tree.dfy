/*
 * The shape of what `parse` in src/main/cpp/parse.cpp recognises, as a
 * tree, and the flat instruction stream it writes for each node.
 *
 * The parser itself writes only instructions; the tree is the record of
 * which `try_match_*` calls succeeded.  `Emit*` gives the instructions each
 * node contributes and `*Width` the number of source bytes it covers.
 */
module ParseTree {
  import opened Options
  import opened Instructions

  /** One element of a content sequence. */
  datatype Piece =
    | TextPiece(length: nat)
    | EscapePiece
    | DirectivePiece(nameLength: nat, arguments: ArgumentsPart, block: BlockPart)

  /** `try_match_argument_list`: absent, or `[` arguments separated by `,`
    * and closed by `]`. */
  datatype ArgumentsPart = NoArguments | Arguments(args: seq<ArgumentNode>)

  /** `try_match_argument`: an optional name, leading whitespace and the
    * value's content, whose trailing whitespace `trim` says how to skip. */
  datatype ArgumentNode = ArgumentNode(name: NamePart, leading: nat, pieces: seq<Piece>, trim: Trim)

  /** `try_match_argument_name`: whitespace, the name, whitespace and `=`. */
  datatype NamePart = NoName | Name(leading: nat, length: nat, trailing: nat)

  /** `trim_trailing_whitespace_in_matched_content` on a last text piece:
    * left alone, turned into a `skip`, or split at `keep` into `text` and
    * `skip`. */
  datatype Trim = Untrimmed | AllWhitespace | SplitAt(keep: nat)

  /** `try_match_block`: absent, a `{` consumed by a failed attempt whose
    * brace is not given back, or `{` content `}`. */
  datatype BlockPart = NoBlock | LostBrace | Block(pieces: seq<Piece>)

  // ---------------------------------------------------------------------
  // Emitted instructions.

  function SkipIf(n: nat): seq<Instruction>
  {
    if n == 0 then [] else [Instruction(Skip, n)]
  }

  function EmitPiece(p: Piece): seq<Instruction>
    decreases p
  {
    match p
    case TextPiece(n) => [Instruction(Text, n)]
    case EscapePiece => [Instruction(Escape, 2)]
    case DirectivePiece(len, args, block) =>
      [Instruction(PushDirective, len + 1)] + EmitArguments(args) + EmitBlock(block)
      + [Instruction(PopDirective, 0)]
  }

  function EmitPieces(ps: seq<Piece>): seq<Instruction>
    decreases ps, 0
  {
    if ps == [] then [] else EmitPiece(ps[0]) + EmitPieces(ps[1..])
  }

  function EmitArguments(a: ArgumentsPart): seq<Instruction>
    decreases a
  {
    match a
    case NoArguments => []
    case Arguments(args) =>
      [Instruction(PushArguments, |args|)] + EmitArgumentList(args) + [Instruction(PopArguments, 0)]
  }

  /** The arguments with a `skip 1` for each separating comma. */
  function EmitArgumentList(args: seq<ArgumentNode>): seq<Instruction>
    decreases args
  {
    if args == [] then []
    else if |args| == 1 then EmitArgument(args[0])
    else EmitArgument(args[0]) + [Instruction(Skip, 1)] + EmitArgumentList(args[1..])
  }

  function EmitArgument(a: ArgumentNode): seq<Instruction>
    decreases a
  {
    [Instruction(PushArgument, |a.pieces|)] + EmitName(a.name) + SkipIf(a.leading)
    + EmitTrimmed(a.pieces, a.trim) + [Instruction(PopArgument, 0)]
  }

  function EmitName(n: NamePart): seq<Instruction>
  {
    match n
    case NoName => []
    case Name(lead, len, trail) =>
      SkipIf(lead) + [Instruction(ArgumentName, len), Instruction(Skip, trail + 1)]
  }

  /** The content of an argument value with its last text piece trimmed. */
  function EmitTrimmed(ps: seq<Piece>, trim: Trim): seq<Instruction>
    decreases ps, 1
  {
    if ps != [] && ps[|ps| - 1].TextPiece? then
      var n := ps[|ps| - 1].length;
      var init := EmitPieces(ps[..|ps| - 1]);
      match trim
      case Untrimmed => init + [Instruction(Text, n)]
      case AllWhitespace => init + [Instruction(Skip, n)]
      case SplitAt(k) =>
        if k <= n then init + [Instruction(Text, k), Instruction(Skip, n - k)]
        else init + [Instruction(Text, n)]
    else EmitPieces(ps)
  }

  function EmitBlock(b: BlockPart): seq<Instruction>
    decreases b
  {
    match b
    case NoBlock => []
    case LostBrace => []
    case Block(ps) => [Instruction(PushBlock, |ps|)] + EmitPieces(ps) + [Instruction(PopBlock, 0)]
  }

  /** `Parser::operator()`: the document's content between `push_document`,
    * whose operand is the number of pieces, and `pop_document`. */
  function EmitDocument(ps: seq<Piece>): seq<Instruction>
  {
    [Instruction(PushDocument, |ps|)] + EmitPieces(ps) + [Instruction(PopDocument, 0)]
  }

  // ---------------------------------------------------------------------
  // Source extent.

  function PieceWidth(p: Piece): nat
    decreases p
  {
    match p
    case TextPiece(n) => n
    case EscapePiece => 2
    case DirectivePiece(len, args, block) => 1 + len + ArgumentsWidth(args) + BlockWidth(block)
  }

  function PiecesWidth(ps: seq<Piece>): nat
    decreases ps
  {
    if ps == [] then 0 else PieceWidth(ps[0]) + PiecesWidth(ps[1..])
  }

  function ArgumentsWidth(a: ArgumentsPart): nat
    decreases a
  {
    match a
    case NoArguments => 0
    case Arguments(args) => 2 + ArgumentListWidth(args)
  }

  function ArgumentListWidth(args: seq<ArgumentNode>): nat
    decreases args
  {
    if args == [] then 0
    else if |args| == 1 then ArgumentWidth(args[0])
    else ArgumentWidth(args[0]) + 1 + ArgumentListWidth(args[1..])
  }

  function ArgumentWidth(a: ArgumentNode): nat
    decreases a
  {
    NameWidth(a.name) + a.leading + PiecesWidth(a.pieces)
  }

  function NameWidth(n: NamePart): nat
  {
    match n
    case NoName => 0
    case Name(lead, len, trail) => lead + len + trail + 1
  }

  function BlockWidth(b: BlockPart): nat
    decreases b
  {
    match b
    case NoBlock => 0
    case LostBrace => 1
    case Block(ps) => 2 + PiecesWidth(ps)
  }

  // ---------------------------------------------------------------------
  // Lost braces.

  function PieceLost(p: Piece): nat
    decreases p
  {
    match p
    case TextPiece(_) => 0
    case EscapePiece => 0
    case DirectivePiece(_, args, block) => ArgumentsLost(args) + BlockLost(block)
  }

  function PiecesLost(ps: seq<Piece>): nat
    decreases ps
  {
    if ps == [] then 0 else PieceLost(ps[0]) + PiecesLost(ps[1..])
  }

  function ArgumentsLost(a: ArgumentsPart): nat
    decreases a
  {
    match a
    case NoArguments => 0
    case Arguments(args) => ArgumentListLost(args)
  }

  function ArgumentListLost(args: seq<ArgumentNode>): nat
    decreases args
  {
    if args == [] then 0 else PiecesLost(args[0].pieces) + ArgumentListLost(args[1..])
  }

  function BlockLost(b: BlockPart): nat
    decreases b
  {
    match b
    case NoBlock => 0
    case LostBrace => 1
    case Block(ps) => PiecesLost(ps)
  }

  // ---------------------------------------------------------------------
  // Appending at the back, as the parser does.

  lemma {:induction false} EmitPiecesSnoc(ps: seq<Piece>, p: Piece)
    ensures EmitPieces(ps + [p]) == EmitPieces(ps) + EmitPiece(p)
    decreases |ps|
  {
    if ps == [] {
      assert [] + [p] == [p];
      assert [p][1..] == [];
    } else {
      assert (ps + [p])[0] == ps[0];
      assert (ps + [p])[1..] == ps[1..] + [p];
      EmitPiecesSnoc(ps[1..], p);
    }
  }

  lemma {:induction false} PiecesWidthSnoc(ps: seq<Piece>, p: Piece)
    ensures PiecesWidth(ps + [p]) == PiecesWidth(ps) + PieceWidth(p)
    decreases |ps|
  {
    if ps == [] {
      assert [] + [p] == [p];
      assert [p][1..] == [];
    } else {
      assert (ps + [p])[0] == ps[0];
      assert (ps + [p])[1..] == ps[1..] + [p];
      PiecesWidthSnoc(ps[1..], p);
    }
  }

  lemma {:induction false} EmitArgumentListSnoc(args: seq<ArgumentNode>, a: ArgumentNode)
    requires args != []
    ensures EmitArgumentList(args + [a]) == EmitArgumentList(args) + [Instruction(Skip, 1)] + EmitArgument(a)
    decreases |args|
  {
    assert (args + [a])[0] == args[0];
    assert (args + [a])[1..] == args[1..] + [a];
    if |args| > 1 {
      EmitArgumentListSnoc(args[1..], a);
    } else {
      assert args[1..] + [a] == [a];
    }
  }

  // ---------------------------------------------------------------------
  // Every node's instructions advance over the bytes it covers, except for
  // the braces that failed block attempts consume without an instruction.

  lemma WidthSingle(i: Instruction)
    ensures Width([i]) == Advance(i)
  {
    assert [i][..0] == [];
  }

  lemma Width3(a: seq<Instruction>, b: seq<Instruction>, c: seq<Instruction>)
    ensures Width(a + b + c) == Width(a) + Width(b) + Width(c)
  {
    WidthConcat(a, b);
    WidthConcat(a + b, c);
  }

  lemma Width4(a: seq<Instruction>, b: seq<Instruction>, c: seq<Instruction>, d: seq<Instruction>)
    ensures Width(a + b + c + d) == Width(a) + Width(b) + Width(c) + Width(d)
  {
    Width3(a, b, c);
    WidthConcat(a + b + c, d);
  }

  lemma SkipIfWidth(n: nat)
    ensures Width(SkipIf(n)) == n
  {
    if n != 0 {
      WidthSingle(Instruction(Skip, n));
    }
  }

  lemma NameCoverage(n: NamePart)
    ensures Width(EmitName(n)) == NameWidth(n)
  {
    match n {
      case NoName =>
      case Name(lead, len, trail) =>
        var tail := [Instruction(ArgumentName, len), Instruction(Skip, trail + 1)];
        assert tail == [tail[0]] + [tail[1]];
        WidthSingle(tail[0]);
        WidthSingle(tail[1]);
        WidthConcat([tail[0]], [tail[1]]);
        SkipIfWidth(lead);
        WidthConcat(SkipIf(lead), tail);
    }
  }

  /** Trimming only relabels bytes: it keeps the width of the content. */
  lemma TrimmedWidth(ps: seq<Piece>, trim: Trim)
    ensures Width(EmitTrimmed(ps, trim)) == Width(EmitPieces(ps))
  {
    if ps != [] && ps[|ps| - 1].TextPiece? {
      var n := ps[|ps| - 1].length;
      var init := EmitPieces(ps[..|ps| - 1]);
      assert ps == ps[..|ps| - 1] + [ps[|ps| - 1]];
      EmitPiecesSnoc(ps[..|ps| - 1], ps[|ps| - 1]);
      WidthSingle(Instruction(Text, n));
      WidthConcat(init, [Instruction(Text, n)]);
      match trim {
        case Untrimmed =>
        case AllWhitespace =>
          WidthSingle(Instruction(Skip, n));
          WidthConcat(init, [Instruction(Skip, n)]);
        case SplitAt(k) =>
          if k <= n {
            var tail := [Instruction(Text, k), Instruction(Skip, n - k)];
            assert tail == [tail[0]] + [tail[1]];
            WidthSingle(tail[0]);
            WidthSingle(tail[1]);
            WidthConcat([tail[0]], [tail[1]]);
            WidthConcat(init, tail);
          }
      }
    }
  }

  lemma {:induction false} PieceCoverage(p: Piece)
    ensures Width(EmitPiece(p)) + PieceLost(p) == PieceWidth(p)
    decreases p, 1
  {
    match p {
      case TextPiece(n) => WidthSingle(Instruction(Text, n));
      case EscapePiece => WidthSingle(Instruction(Escape, 2));
      case DirectivePiece(len, args, block) =>
        WidthSingle(Instruction(PushDirective, len + 1));
        WidthSingle(Instruction(PopDirective, 0));
        Width4([Instruction(PushDirective, len + 1)], EmitArguments(args), EmitBlock(block), [Instruction(PopDirective, 0)]);
        ArgumentsCoverage(args);
        BlockCoverage(block);
    }
  }

  lemma {:induction false} PiecesCoverage(ps: seq<Piece>)
    ensures Width(EmitPieces(ps)) + PiecesLost(ps) == PiecesWidth(ps)
    decreases ps, 1
  {
    if ps != [] {
      PieceCoverage(ps[0]);
      PiecesCoverage(ps[1..]);
      WidthConcat(EmitPiece(ps[0]), EmitPieces(ps[1..]));
    }
  }

  lemma {:induction false} ArgumentsCoverage(a: ArgumentsPart)
    ensures Width(EmitArguments(a)) + ArgumentsLost(a) == ArgumentsWidth(a)
    decreases a, 1
  {
    match a {
      case NoArguments =>
      case Arguments(args) =>
        WidthSingle(Instruction(PushArguments, |args|));
        WidthSingle(Instruction(PopArguments, 0));
        Width3([Instruction(PushArguments, |args|)], EmitArgumentList(args), [Instruction(PopArguments, 0)]);
        ArgumentListCoverage(args);
    }
  }

  lemma {:induction false} ArgumentListCoverage(args: seq<ArgumentNode>)
    ensures Width(EmitArgumentList(args)) + ArgumentListLost(args) == ArgumentListWidth(args)
    decreases args, 1
  {
    if args != [] {
      ArgumentCoverage(args[0]);
      if |args| == 1 {
        assert args[1..] == [];
      } else {
        ArgumentListCoverage(args[1..]);
        WidthSingle(Instruction(Skip, 1));
        Width3(EmitArgument(args[0]), [Instruction(Skip, 1)], EmitArgumentList(args[1..]));
      }
    }
  }

  lemma {:induction false} ArgumentCoverage(a: ArgumentNode)
    ensures Width(EmitArgument(a)) + PiecesLost(a.pieces) == ArgumentWidth(a)
    decreases a, 0
  {
    var push, pop := Instruction(PushArgument, |a.pieces|), Instruction(PopArgument, 0);
    var middle := EmitName(a.name) + SkipIf(a.leading) + EmitTrimmed(a.pieces, a.trim);
    assert EmitArgument(a) == [push] + middle + [pop];
    WidthSingle(push);
    WidthSingle(pop);
    Width3([push], middle, [pop]);
    assert Width(EmitArgument(a)) == Width(middle);
    Width3(EmitName(a.name), SkipIf(a.leading), EmitTrimmed(a.pieces, a.trim));
    NameCoverage(a.name);
    SkipIfWidth(a.leading);
    TrimmedWidth(a.pieces, a.trim);
    assert Width(middle) == NameWidth(a.name) + a.leading + Width(EmitPieces(a.pieces));
    PiecesCoverage(a.pieces);
  }

  lemma {:induction false} BlockCoverage(b: BlockPart)
    ensures Width(EmitBlock(b)) + BlockLost(b) == BlockWidth(b)
    decreases b, 1
  {
    match b {
      case NoBlock =>
      case LostBrace =>
      case Block(ps) =>
        WidthSingle(Instruction(PushBlock, |ps|));
        WidthSingle(Instruction(PopBlock, 0));
        Width3([Instruction(PushBlock, |ps|)], EmitPieces(ps), [Instruction(PopBlock, 0)]);
        PiecesCoverage(ps);
    }
  }

  /** The document's instructions advance over every byte the content
    * covers that no failed block attempt swallowed. */
  lemma DocumentCoverage(ps: seq<Piece>)
    ensures Width(EmitDocument(ps)) + PiecesLost(ps) == PiecesWidth(ps)
  {
    WidthSingle(Instruction(PushDocument, |ps|));
    WidthSingle(Instruction(PopDocument, 0));
    Width3([Instruction(PushDocument, |ps|)], EmitPieces(ps), [Instruction(PopDocument, 0)]);
    PiecesCoverage(ps);
  }

  // ---------------------------------------------------------------------
  // Every node's instructions nest.

  predicate Flat(s: seq<Instruction>)
  {
    forall k :: 0 <= k < |s| ==> !IsPush(s[k].kind) && !IsPop(s[k].kind)
  }

  lemma {:induction false} NestFlat(stack: seq<InstructionType>, s: seq<Instruction>)
    requires Flat(s)
    ensures Nest(stack, s) == Some(stack)
    decreases |s|
  {
    if s != [] {
      NestFlat(stack, s[1..]);
    }
  }

  lemma FlatBalanced(s: seq<Instruction>)
    requires Flat(s)
    ensures Balanced(s)
  {
    NestFlat([], s);
  }

  lemma {:induction false} TrimmedBalanced(ps: seq<Piece>, trim: Trim)
    ensures Balanced(EmitTrimmed(ps, trim))
    decreases ps, 2
  {
    if ps != [] && ps[|ps| - 1].TextPiece? {
      var n := ps[|ps| - 1].length;
      var init := EmitPieces(ps[..|ps| - 1]);
      assert ps == ps[..|ps| - 1] + [ps[|ps| - 1]];
      PiecesBalanced(ps[..|ps| - 1]);
      match trim {
        case Untrimmed =>
          FlatBalanced([Instruction(Text, n)]);
          BalancedConcat(init, [Instruction(Text, n)]);
        case AllWhitespace =>
          FlatBalanced([Instruction(Skip, n)]);
          BalancedConcat(init, [Instruction(Skip, n)]);
        case SplitAt(k) =>
          if k <= n {
            FlatBalanced([Instruction(Text, k), Instruction(Skip, n - k)]);
            BalancedConcat(init, [Instruction(Text, k), Instruction(Skip, n - k)]);
          } else {
            FlatBalanced([Instruction(Text, n)]);
            BalancedConcat(init, [Instruction(Text, n)]);
          }
      }
    } else {
      PiecesBalanced(ps);
    }
  }

  lemma {:induction false} PieceBalanced(p: Piece)
    ensures Balanced(EmitPiece(p))
    decreases p, 1
  {
    match p {
      case TextPiece(n) => FlatBalanced([Instruction(Text, n)]);
      case EscapePiece => FlatBalanced([Instruction(Escape, 2)]);
      case DirectivePiece(len, args, block) =>
        ArgumentsBalanced(args);
        BlockBalanced(block);
        BalancedConcat(EmitArguments(args), EmitBlock(block));
        BalancedWrap(PushDirective, len + 1, EmitArguments(args) + EmitBlock(block));
        assert EmitPiece(p) == [Instruction(PushDirective, len + 1)] + (EmitArguments(args) + EmitBlock(block)) + [Instruction(PopDirective, 0)];
    }
  }

  lemma {:induction false} PiecesBalanced(ps: seq<Piece>)
    ensures Balanced(EmitPieces(ps))
    decreases ps, 1
  {
    if ps != [] {
      PieceBalanced(ps[0]);
      PiecesBalanced(ps[1..]);
      BalancedConcat(EmitPiece(ps[0]), EmitPieces(ps[1..]));
    }
  }

  lemma {:induction false} ArgumentsBalanced(a: ArgumentsPart)
    ensures Balanced(EmitArguments(a))
    decreases a, 1
  {
    match a {
      case NoArguments =>
      case Arguments(args) =>
        ArgumentListBalanced(args);
        BalancedWrap(PushArguments, |args|, EmitArgumentList(args));
    }
  }

  lemma {:induction false} ArgumentListBalanced(args: seq<ArgumentNode>)
    ensures Balanced(EmitArgumentList(args))
    decreases args, 1
  {
    if args != [] {
      ArgumentBalanced(args[0]);
      if |args| > 1 {
        ArgumentListBalanced(args[1..]);
        FlatBalanced([Instruction(Skip, 1)]);
        BalancedConcat(EmitArgument(args[0]), [Instruction(Skip, 1)]);
        BalancedConcat(EmitArgument(args[0]) + [Instruction(Skip, 1)], EmitArgumentList(args[1..]));
      }
    }
  }

  lemma {:induction false} ArgumentBalanced(a: ArgumentNode)
    ensures Balanced(EmitArgument(a))
    decreases a, 0
  {
    var name := EmitName(a.name);
    assert Flat(name);
    FlatBalanced(name + SkipIf(a.leading));
    TrimmedBalanced(a.pieces, a.trim);
    var body := name + SkipIf(a.leading) + EmitTrimmed(a.pieces, a.trim);
    BalancedConcat(name + SkipIf(a.leading), EmitTrimmed(a.pieces, a.trim));
    BalancedWrap(PushArgument, |a.pieces|, body);
    assert EmitArgument(a) == [Instruction(PushArgument, |a.pieces|)] + body + [Instruction(PopArgument, 0)];
  }

  lemma {:induction false} BlockBalanced(b: BlockPart)
    ensures Balanced(EmitBlock(b))
    decreases b, 1
  {
    match b {
      case NoBlock =>
      case LostBrace =>
      case Block(ps) =>
        PiecesBalanced(ps);
        BalancedWrap(PushBlock, |ps|, EmitPieces(ps));
    }
  }

  /** The document stream opens with `push_document`, whose operand is the
    * number of top-level pieces, closes with `pop_document`, and every
    * push in between is closed by the matching pop. */
  lemma DocumentShape(ps: seq<Piece>)
    ensures Balanced(EmitDocument(ps))
    ensures EmitDocument(ps)[0] == Instruction(PushDocument, |ps|)
    ensures EmitDocument(ps)[|EmitDocument(ps)| - 1] == Instruction(PopDocument, 0)
  {
    PiecesBalanced(ps);
    BalancedWrap(PushDocument, |ps|, EmitPieces(ps));
  }
}
