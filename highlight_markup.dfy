/*
 * `highlight_mmml` over an instruction stream (src/main/cpp/highlight/mmml.cpp):
 * one pass over the instructions that keeps a running source `index`, a
 * comment depth and two length accumulators, and appends highlight spans.
 *
 * `Step` and `Run` state what one instruction and a whole stream do to
 * these variables; `Highlighter` holds the captured variables of the C++
 * function and `HighlightMarkup` is its loop, proved to follow `Run`.
 * `Revision` selects between the loop as written and the correction listed
 * under "Findings" in README.md.
 */
module MarkupHighlight {
  import opened Options
  import opened Chars
  import opened Instructions
  import opened Highlight
  import PS = ParseSpec

  /** The variables of the loop: the output, `index`, `in_comment`,
    * `comment_delimiter_length` and `comment_content_length`. */
  datatype HighlightState = HighlightState(
    out: seq<HighlightSpan>,
    index: nat,
    inComment: nat,
    delimiterLength: nat,
    contentLength: nat)

  function Start(prior: seq<HighlightSpan>): HighlightState
  {
    HighlightState(prior, 0, 0, 0, 0)
  }

  /** `std::u8string_view::substr` when no exception is thrown (`pos` is at
    * most the size): the count is clamped to what remains. */
  function Substr(s: seq<byte>, pos: nat, count: nat): (r: seq<byte>)
    requires pos <= |s|
    ensures |r| <= count && pos + |r| <= |s| && r == s[pos..pos + |r|]
    ensures pos + count <= |s| ==> |r| == count
    ensures pos + count > |s| ==> pos + |r| == |s|
  {
    if pos + count <= |s| then s[pos..pos + count] else s[pos..]
  }

  predicate IsCommentName(name: seq<byte>)
  {
    name == "\\comment" || name == "\\-comment"
  }

  // ---------------------------------------------------------------------
  // `emit`.

  /** Whether `emit` lengthens the last span instead of pushing one. */
  predicate Coalesces(st: HighlightState, coalescing: bool, t: HighlightType)
  {
    coalescing && st.out != [] && st.out[|st.out| - 1].value == t
    && st.out[|st.out| - 1].End() == st.index
  }

  /** The `emit` lambda: a span of `length` bytes of type `t` at `index`,
    * after which `index` has moved past it. */
  function EmitSpan(st: HighlightState, coalescing: bool, length: nat, t: HighlightType): (r: HighlightState)
    ensures r.index == st.index + length
    ensures r.inComment == st.inComment
    ensures r.delimiterLength == st.delimiterLength && r.contentLength == st.contentLength
    ensures |r.out| == if Coalesces(st, coalescing, t) then |st.out| else |st.out| + 1
  {
    if Coalesces(st, coalescing, t) then
      var last := st.out[|st.out| - 1];
      st.(out := st.out[|st.out| - 1 := last.(length := last.length + length)], index := st.index + length)
    else
      st.(out := st.out + [Span(st.index, length, t)], index := st.index + length)
  }

  /** Whatever coalescing does, `emit` annotates exactly the `length` bytes
    * at `index` with `t` and leaves the annotation of every other byte. */
  lemma EmitAnnotates(st: HighlightState, coalescing: bool, length: nat, t: HighlightType, x: nat)
    ensures AnnotationAt(EmitSpan(st, coalescing, length, t).out, x)
      == if st.index <= x < st.index + length then Some(t) else AnnotationAt(st.out, x)
  {
    var r := EmitSpan(st, coalescing, length, t);
    if Coalesces(st, coalescing, t) {
      var n := |st.out|;
      assert r.out == st.out[..n - 1] + [r.out[n - 1]];
      assert st.out == st.out[..n - 1] + [st.out[n - 1]];
      AnnotationAtSnoc(st.out[..n - 1], r.out[n - 1], x);
      AnnotationAtSnoc(st.out[..n - 1], st.out[n - 1], x);
    } else {
      AnnotationAtSnoc(st.out, Span(st.index, length, t), x);
    }
  }

  /** Spans ascending and none reaching past `index`. */
  predicate Ordered(st: HighlightState)
  {
    Ascending(st.out) && (st.out != [] ==> st.out[|st.out| - 1].End() <= st.index)
  }

  /** `emit` keeps the spans ascending: a pushed span starts at `index`, a
    * lengthened one ends at the new `index`. */
  lemma EmitKeepsOrdered(st: HighlightState, coalescing: bool, length: nat, t: HighlightType)
    requires Ordered(st)
    ensures Ordered(EmitSpan(st, coalescing, length, t))
    ensures EmitSpan(st, coalescing, length, t).out[|EmitSpan(st, coalescing, length, t).out| - 1]
      .End() == st.index + length
  {
    var r := EmitSpan(st, coalescing, length, t);
    if !Coalesces(st, coalescing, t) {
      assert r.out == st.out + [Span(st.index, length, t)];
      assert forall k | 0 <= k < |r.out| - 1 :: r.out[k] == st.out[k];
    } else {
      assert forall k | 0 <= k < |r.out| - 1 :: r.out[k] == st.out[k];
    }
  }

  // ---------------------------------------------------------------------
  // One instruction.

  datatype Stepped = Threw | Next(state: HighlightState)

  /** The accumulator the comment branch adds to: the content inside the
    * comment block, otherwise the delimiter. */
  function AddToTarget(st: HighlightState, k: nat): (r: HighlightState)
    ensures r.out == st.out && r.index == st.index && r.inComment == st.inComment
    ensures r.delimiterLength + r.contentLength == st.delimiterLength + st.contentLength + k
  {
    if st.inComment > 1 then st.(contentLength := st.contentLength + k)
    else st.(delimiterLength := st.delimiterLength + k)
  }

  /** Corrected only: leaving the comment emits its delimiter, the bytes of
    * the comment directive not yet highlighted. */
  function LeaveComment(v: PS.Revision, coalescing: bool, st: HighlightState): HighlightState
  {
    var left := st.(inComment := 0);
    if v == PS.Corrected && st.delimiterLength != 0 then
      EmitSpan(left, coalescing, st.delimiterLength, CommentDelimiter).(delimiterLength := 0)
    else left
  }

  /** The first `{` in a comment: counted into the delimiter, which is
    * then emitted. */
  function OpenBlock(v: PS.Revision, coalescing: bool, st: HighlightState): HighlightState
  {
    var counted := st.(delimiterLength := st.delimiterLength + 1, inComment := st.inComment + 1);
    var emitted := EmitSpan(counted, coalescing, counted.delimiterLength, CommentDelimiter);
    if v == PS.Corrected then emitted.(delimiterLength := 0, contentLength := 0) else emitted
  }

  /** The `}` that closes the comment block: the content, when there is
    * any, then one byte of delimiter. */
  function CloseBlock(coalescing: bool, st: HighlightState): HighlightState
  {
    var closed := st.(inComment := 1);
    var body := if st.contentLength != 0 then EmitSpan(closed, coalescing, st.contentLength, Comment) else closed;
    EmitSpan(body, coalescing, 1, CommentDelimiter)
  }

  /** The branch taken while `in_comment != 0`: it never moves `index`
    * back and never drops a span. */
  function CommentStep(v: PS.Revision, coalescing: bool, st: HighlightState, i: Instruction): (r: HighlightState)
    requires st.inComment != 0
    ensures r.index >= st.index && |r.out| >= |st.out|
  {
    match i.kind
    case Skip | Escape | Text | ArgumentName | PushDirective => AddToTarget(st, i.n)
    case PopDirective =>
      if st.inComment == 1 then LeaveComment(v, coalescing, st) else st
    case ArgumentEqual | ArgumentComma | PushArguments | PopArguments => AddToTarget(st, 1)
    case PushDocument | PopDocument | PushArgument | PopArgument => st
    case PushBlock =>
      if st.inComment <= 1 then OpenBlock(v, coalescing, st)
      else AddToTarget(st, 1).(inComment := st.inComment + 1)
    case PopBlock =>
      if st.inComment == 2 then CloseBlock(coalescing, st)
      else if st.inComment == 1 && v == PS.Corrected then
        EmitSpan(LeaveComment(v, coalescing, st), coalescing, 1, SymbolImportant)
      else
        st.(inComment := st.inComment - 1, contentLength := st.contentLength + 1)
  }

  /** The branch taken outside comments; `substr` throws when `index` is
    * past the end of the source, which is the only way it fails. It never
    * moves `index` back and never drops a span. */
  function OutsideStep(source: seq<byte>, coalescing: bool, st: HighlightState, i: Instruction): (r: Stepped)
    ensures r.Threw? <==> i.kind == PushDirective && st.index > |source|
    ensures r.Next? ==> r.state.index >= st.index && |r.state.out| >= |st.out|
  {
    match i.kind
    case Skip | Text => Next(st.(index := st.index + i.n))
    case Escape => Next(EmitSpan(st, coalescing, i.n, StringEscape))
    case ArgumentName => Next(EmitSpan(st, coalescing, i.n, Attribute))
    case PushDirective =>
      if st.index > |source| then Threw
      else if IsCommentName(Substr(source, st.index, i.n)) then
        Next(st.(inComment := 1, delimiterLength := i.n, contentLength := 0))
      else Next(EmitSpan(st, coalescing, i.n, Tag))
    case ArgumentEqual | ArgumentComma => Next(EmitSpan(st, coalescing, 1, Symbol))
    case PushArguments | PopArguments | PushBlock | PopBlock => Next(EmitSpan(st, coalescing, 1, SymbolImportant))
    case PushDocument | PopDocument | PushArgument | PopArgument | PopDirective => Next(st)
  }

  /** One iteration of the loop of `highlight_mmml`: it throws only outside
    * comments, on a directive past the end of the source. */
  function Step(v: PS.Revision, source: seq<byte>, coalescing: bool, st: HighlightState, i: Instruction): (r: Stepped)
    ensures r.Threw? <==> st.inComment == 0 && i.kind == PushDirective && st.index > |source|
    ensures r.Next? ==> r.state.index >= st.index && |r.state.out| >= |st.out|
  {
    if st.inComment != 0 then Next(CommentStep(v, coalescing, st, i))
    else OutsideStep(source, coalescing, st, i)
  }

  /** The whole loop, starting from the spans already in `out`: it keeps
    * as many spans as there were, and an empty stream changes nothing. */
  function Run(v: PS.Revision, source: seq<byte>, coalescing: bool, prior: seq<HighlightSpan>, instrs: seq<Instruction>): (r: Stepped)
    ensures r.Next? ==> |r.state.out| >= |prior|
    ensures instrs == [] ==> r == Next(Start(prior))
    decreases |instrs|
  {
    if instrs == [] then Next(Start(prior))
    else
      match Run(v, source, coalescing, prior, instrs[..|instrs| - 1])
      case Threw => Threw
      case Next(st) => Step(v, source, coalescing, st, instrs[|instrs| - 1])
  }

  // ---------------------------------------------------------------------
  // Properties of one step.

  /** The type an instruction is highlighted with outside comments, or
    * none when it only moves `index` or moves nothing; a directive name
    * other than a comment's is a tag. */
  function OutsideType(i: Instruction): Option<HighlightType>
  {
    match i.kind
    case Escape => Some(StringEscape)
    case ArgumentName => Some(Attribute)
    case PushDirective => Some(Tag)
    case ArgumentEqual => Some(Symbol)
    case ArgumentComma => Some(Symbol)
    case PushArguments => Some(SymbolImportant)
    case PopArguments => Some(SymbolImportant)
    case PushBlock => Some(SymbolImportant)
    case PopBlock => Some(SymbolImportant)
    case _ => None
  }

  /** Outside comments, an instruction that does not open a comment moves
    * `index` by exactly its advance over the source and gives the bytes it
    * advances over its type (`skip` and `text` leave them unannotated);
    * every other byte keeps its annotation. */
  lemma OutsideStepAnnotates(source: seq<byte>, coalescing: bool, st: HighlightState, i: Instruction, x: nat)
    requires st.inComment == 0
    requires OutsideStep(source, coalescing, st, i).Next?
    requires OutsideStep(source, coalescing, st, i).state.inComment == 0
    ensures OutsideStep(source, coalescing, st, i).state.index == st.index + Advance(i)
    ensures AnnotationAt(OutsideStep(source, coalescing, st, i).state.out, x)
      == if st.index <= x < st.index + Advance(i) && OutsideType(i).Some? then OutsideType(i)
         else AnnotationAt(st.out, x)
  {
    match OutsideType(i)
    case Some(t) => EmitAnnotates(st, coalescing, Advance(i), t, x);
    case None =>
  }

  /** A directive opens comment mode exactly when its name, the operand's
    * worth of source at `index`, is `\comment` or `\-comment`; its length
    * becomes the delimiter length and nothing is emitted. */
  lemma CommentEntry(source: seq<byte>, coalescing: bool, st: HighlightState, i: Instruction)
    requires st.inComment == 0 && i.kind == PushDirective && st.index <= |source|
    ensures OutsideStep(source, coalescing, st, i).Next?
    ensures OutsideStep(source, coalescing, st, i).state.inComment == 1
      <==> IsCommentName(Substr(source, st.index, i.n))
    ensures IsCommentName(Substr(source, st.index, i.n)) ==>
      OutsideStep(source, coalescing, st, i).state
        == st.(inComment := 1, delimiterLength := i.n, contentLength := 0)
  {
  }

  /** In comment mode the loop as written emits nothing, and leaves `index`
    * where it is, except at the opening `{` of the comment block and at its
    * closing `}`. */
  lemma CommentModeIsSilent(coalescing: bool, st: HighlightState, i: Instruction)
    requires st.inComment != 0
    requires !(i.kind == PushBlock && st.inComment == 1)
    requires !(i.kind == PopBlock && st.inComment == 2)
    ensures CommentStep(PS.AsWritten, coalescing, st, i).out == st.out
    ensures CommentStep(PS.AsWritten, coalescing, st, i).index == st.index
  {
  }

  /** The opening `{` emits the delimiter counted so far, the `{` included,
    * and the closing `}` emits the content (when there is any) and one
    * byte of delimiter, in both revisions. */
  lemma CommentBlockEmits(v: PS.Revision, coalescing: bool, st: HighlightState, i: Instruction)
    requires (st.inComment == 1 && i.kind == PushBlock) || (st.inComment == 2 && i.kind == PopBlock)
    ensures var r := CommentStep(v, coalescing, st, i);
      r.index == st.index + (if i.kind == PushBlock then st.delimiterLength + 1 else st.contentLength + 1)
      && r.inComment == (if i.kind == PushBlock then 2 else 1)
      && |r.out| <= |st.out| + 2
  {
  }

  /** `pop_directive` at comment depth 1 leaves comment mode, at a deeper
    * depth it changes nothing. */
  lemma PopDirectiveInComment(v: PS.Revision, coalescing: bool, st: HighlightState)
    requires st.inComment != 0
    ensures var r := CommentStep(v, coalescing, st, Instruction(PopDirective, 0));
      (st.inComment == 1 ==> r.inComment == 0) && (st.inComment > 1 ==> r == st)
  {
  }

  /** Keeping the spans and not moving `index` back keeps them ordered. */
  lemma OrderedMonotone(st: HighlightState, r: HighlightState)
    requires Ordered(st) && r.out == st.out && r.index >= st.index
    ensures Ordered(r)
  {
  }

  lemma CommentStepKeepsOrdered(v: PS.Revision, coalescing: bool, st: HighlightState, i: Instruction)
    requires Ordered(st) && st.inComment != 0
    ensures Ordered(CommentStep(v, coalescing, st, i))
    ensures CommentStep(v, coalescing, st, i).index >= st.index
  {
    var r := CommentStep(v, coalescing, st, i);
    if i.kind == PushBlock && st.inComment <= 1 {
      OpenBlockKeepsOrdered(v, coalescing, st);
    } else if i.kind == PopBlock && st.inComment == 2 {
      assert r == CloseBlock(coalescing, st);
      CloseBlockKeepsOrdered(coalescing, st);
    } else if i.kind == PopBlock && st.inComment == 1 && v == PS.Corrected {
      assert r == EmitSpan(LeaveComment(v, coalescing, st), coalescing, 1, SymbolImportant);
      LeaveCommentKeepsOrdered(v, coalescing, st);
      EmitKeepsOrdered(LeaveComment(v, coalescing, st), coalescing, 1, SymbolImportant);
    } else if i.kind == PopDirective && st.inComment == 1 {
      assert r == LeaveComment(v, coalescing, st);
      LeaveCommentKeepsOrdered(v, coalescing, st);
    } else {
      assert r.out == st.out && r.index == st.index;
    }
  }

  lemma OpenBlockKeepsOrdered(v: PS.Revision, coalescing: bool, st: HighlightState)
    requires Ordered(st)
    ensures Ordered(OpenBlock(v, coalescing, st)) && OpenBlock(v, coalescing, st).index >= st.index
  {
    var counted := st.(delimiterLength := st.delimiterLength + 1, inComment := st.inComment + 1);
    EmitKeepsOrdered(counted, coalescing, counted.delimiterLength, CommentDelimiter);
  }

  lemma CloseBlockKeepsOrdered(coalescing: bool, st: HighlightState)
    requires Ordered(st)
    ensures Ordered(CloseBlock(coalescing, st)) && CloseBlock(coalescing, st).index > st.index
  {
    var closed := st.(inComment := 1);
    EmitKeepsOrdered(closed, coalescing, st.contentLength, Comment);
    var body := if st.contentLength != 0 then EmitSpan(closed, coalescing, st.contentLength, Comment) else closed;
    EmitKeepsOrdered(body, coalescing, 1, CommentDelimiter);
  }

  lemma LeaveCommentKeepsOrdered(v: PS.Revision, coalescing: bool, st: HighlightState)
    requires Ordered(st)
    ensures Ordered(LeaveComment(v, coalescing, st))
    ensures LeaveComment(v, coalescing, st).index >= st.index
  {
    EmitKeepsOrdered(st.(inComment := 0), coalescing, st.delimiterLength, CommentDelimiter);
  }

  lemma StepKeepsOrdered(v: PS.Revision, source: seq<byte>, coalescing: bool, st: HighlightState, i: Instruction)
    requires Ordered(st)
    requires Step(v, source, coalescing, st, i).Next?
    ensures Ordered(Step(v, source, coalescing, st, i).state)
    ensures Step(v, source, coalescing, st, i).state.index >= st.index
  {
    if st.inComment != 0 {
      CommentStepKeepsOrdered(v, coalescing, st, i);
    } else {
      match OutsideType(i)
      case Some(t) => EmitKeepsOrdered(st, coalescing, Advance(i), t);
      case None =>
    }
  }

  // ---------------------------------------------------------------------
  // Properties of the whole loop.

  lemma {:induction false} RunKeepsOrdered(v: PS.Revision, source: seq<byte>, coalescing: bool, instrs: seq<Instruction>)
    requires Run(v, source, coalescing, [], instrs).Next?
    ensures Ordered(Run(v, source, coalescing, [], instrs).state)
    decreases |instrs|
  {
    if instrs != [] {
      var init := instrs[..|instrs| - 1];
      RunKeepsOrdered(v, source, coalescing, init);
      StepKeepsOrdered(v, source, coalescing, Run(v, source, coalescing, [], init).state, instrs[|instrs| - 1]);
    }
  }

  /** Once `substr` has thrown, the rest of the stream is not processed. */
  lemma {:induction false} RunThrewStays(v: PS.Revision, source: seq<byte>, coalescing: bool, prior: seq<HighlightSpan>,
                                         instrs: seq<Instruction>, k: nat)
    requires k <= |instrs| && Run(v, source, coalescing, prior, instrs[..k]).Threw?
    ensures Run(v, source, coalescing, prior, instrs).Threw?
    decreases |instrs| - k
  {
    if k < |instrs| {
      assert instrs[..k + 1][..k] == instrs[..k];
      RunThrewStays(v, source, coalescing, prior, instrs, k + 1);
    } else {
      assert instrs[..k] == instrs;
    }
  }

  /** Two states that `x` cannot tell apart: the same counters and the same
    * annotation of byte `x`. */
  predicate Agree(a: HighlightState, b: HighlightState, x: nat)
  {
    a.index == b.index && a.inComment == b.inComment
    && a.delimiterLength == b.delimiterLength && a.contentLength == b.contentLength
    && AnnotationAt(a.out, x) == AnnotationAt(b.out, x)
  }

  lemma EmitAgrees(a: HighlightState, b: HighlightState, ca: bool, cb: bool, length: nat, t: HighlightType, x: nat)
    requires Agree(a, b, x)
    ensures Agree(EmitSpan(a, ca, length, t), EmitSpan(b, cb, length, t), x)
  {
    EmitAnnotates(a, ca, length, t, x);
    EmitAnnotates(b, cb, length, t, x);
  }

  lemma LeaveCommentAgrees(v: PS.Revision, a: HighlightState, b: HighlightState, ca: bool, cb: bool, x: nat)
    requires Agree(a, b, x)
    ensures Agree(LeaveComment(v, ca, a), LeaveComment(v, cb, b), x)
  {
    EmitAgrees(a.(inComment := 0), b.(inComment := 0), ca, cb, a.delimiterLength, CommentDelimiter, x);
  }

  lemma CommentStepAgrees(v: PS.Revision, a: HighlightState, b: HighlightState, ca: bool, cb: bool, i: Instruction, x: nat)
    requires Agree(a, b, x) && a.inComment != 0
    ensures Agree(CommentStep(v, ca, a, i), CommentStep(v, cb, b, i), x)
  {
    if (i.kind == PushBlock && a.inComment <= 1) || (i.kind == PopBlock && a.inComment == 2) {
      BlockEdgeAgrees(v, a, b, ca, cb, i, x);
    } else if ((i.kind == PopBlock && v == PS.Corrected) || i.kind == PopDirective) && a.inComment == 1 {
      LeavingAgrees(v, a, b, ca, cb, i, x);
    } else {
      QuietCommentStepAgrees(v, a, b, ca, cb, i, x);
    }
  }

  /** The `{` that opens the comment block and the `}` that closes it. */
  lemma BlockEdgeAgrees(v: PS.Revision, a: HighlightState, b: HighlightState, ca: bool, cb: bool, i: Instruction, x: nat)
    requires Agree(a, b, x) && a.inComment != 0
    requires (i.kind == PushBlock && a.inComment <= 1) || (i.kind == PopBlock && a.inComment == 2)
    ensures Agree(CommentStep(v, ca, a, i), CommentStep(v, cb, b, i), x)
  {
    if i.kind == PushBlock {
      assert CommentStep(v, ca, a, i) == OpenBlock(v, ca, a) && CommentStep(v, cb, b, i) == OpenBlock(v, cb, b);
      OpenBlockAgrees(v, a, b, ca, cb, x);
    } else {
      assert CommentStep(v, ca, a, i) == CloseBlock(ca, a) && CommentStep(v, cb, b, i) == CloseBlock(cb, b);
      CloseBlockAgrees(a, b, ca, cb, x);
    }
  }

  /** The end of the comment directive, and (corrected) a `}` at depth 1. */
  lemma LeavingAgrees(v: PS.Revision, a: HighlightState, b: HighlightState, ca: bool, cb: bool, i: Instruction, x: nat)
    requires Agree(a, b, x) && a.inComment == 1
    requires (i.kind == PopBlock && v == PS.Corrected) || i.kind == PopDirective
    ensures Agree(CommentStep(v, ca, a, i), CommentStep(v, cb, b, i), x)
  {
    LeaveCommentAgrees(v, a, b, ca, cb, x);
    if i.kind == PopBlock {
      EmitAgrees(LeaveComment(v, ca, a), LeaveComment(v, cb, b), ca, cb, 1, SymbolImportant, x);
    }
  }

  /** The instructions a comment only counts. */
  lemma QuietCommentStepAgrees(v: PS.Revision, a: HighlightState, b: HighlightState, ca: bool, cb: bool, i: Instruction, x: nat)
    requires Agree(a, b, x) && a.inComment != 0
    requires !((i.kind == PushBlock && a.inComment <= 1) || (i.kind == PopBlock && a.inComment == 2))
    requires !(((i.kind == PopBlock && v == PS.Corrected) || i.kind == PopDirective) && a.inComment == 1)
    ensures Agree(CommentStep(v, ca, a, i), CommentStep(v, cb, b, i), x)
  {
    var ra, rb := CommentStep(v, ca, a, i), CommentStep(v, cb, b, i);
    assert ra.out == a.out && rb.out == b.out;
  }

  /** The first `{` moves `index` past the delimiter and the `{`, and
    * the corrected loop starts the block with empty counters. */
  lemma OpenBlockShape(v: PS.Revision, coalescing: bool, st: HighlightState)
    ensures var r := OpenBlock(v, coalescing, st);
      var counted := st.(delimiterLength := st.delimiterLength + 1, inComment := st.inComment + 1);
      r.out == EmitSpan(counted, coalescing, st.delimiterLength + 1, CommentDelimiter).out
      && r.index == st.index + st.delimiterLength + 1 && r.inComment == st.inComment + 1
      && r.delimiterLength == (if v == PS.Corrected then 0 else st.delimiterLength + 1)
      && r.contentLength == (if v == PS.Corrected then 0 else st.contentLength)
  {
  }

  lemma OpenBlockAgrees(v: PS.Revision, a: HighlightState, b: HighlightState, ca: bool, cb: bool, x: nat)
    requires Agree(a, b, x)
    ensures Agree(OpenBlock(v, ca, a), OpenBlock(v, cb, b), x)
  {
    var countedA := a.(delimiterLength := a.delimiterLength + 1, inComment := a.inComment + 1);
    var countedB := b.(delimiterLength := b.delimiterLength + 1, inComment := b.inComment + 1);
    EmitAgrees(countedA, countedB, ca, cb, a.delimiterLength + 1, CommentDelimiter, x);
    OpenBlockShape(v, ca, a);
    OpenBlockShape(v, cb, b);
  }

  lemma CloseBlockAgrees(a: HighlightState, b: HighlightState, ca: bool, cb: bool, x: nat)
    requires Agree(a, b, x)
    ensures Agree(CloseBlock(ca, a), CloseBlock(cb, b), x)
  {
    var closedA, closedB := a.(inComment := 1), b.(inComment := 1);
    EmitAgrees(closedA, closedB, ca, cb, a.contentLength, Comment, x);
    var bodyA := if a.contentLength != 0 then EmitSpan(closedA, ca, a.contentLength, Comment) else closedA;
    var bodyB := if b.contentLength != 0 then EmitSpan(closedB, cb, b.contentLength, Comment) else closedB;
    EmitAgrees(bodyA, bodyB, ca, cb, 1, CommentDelimiter, x);
  }

  /** Outside comments, every instruction other than a directive that
    * throws or opens a comment emits its table type over its advance, or
    * only advances when it has none. */
  lemma OutsideStepShape(source: seq<byte>, coalescing: bool, st: HighlightState, i: Instruction)
    requires !(i.kind == PushDirective && (st.index > |source| || IsCommentName(Substr(source, st.index, i.n))))
    ensures OutsideStep(source, coalescing, st, i) == match OutsideType(i)
      case Some(t) => Next(EmitSpan(st, coalescing, Advance(i), t))
      case None => Next(st.(index := st.index + Advance(i)))
  {
  }

  lemma OutsideStepAgrees(source: seq<byte>, a: HighlightState, b: HighlightState, ca: bool, cb: bool, i: Instruction, x: nat)
    requires Agree(a, b, x) && a.inComment == 0
    ensures OutsideStep(source, ca, a, i).Threw? == OutsideStep(source, cb, b, i).Threw?
    ensures OutsideStep(source, ca, a, i).Next? ==>
      Agree(OutsideStep(source, ca, a, i).state, OutsideStep(source, cb, b, i).state, x)
  {
    if !(i.kind == PushDirective && (a.index > |source| || IsCommentName(Substr(source, a.index, i.n)))) {
      OutsideStepShape(source, ca, a, i);
      OutsideStepShape(source, cb, b, i);
      match OutsideType(i)
      case Some(t) => EmitAgrees(a, b, ca, cb, Advance(i), t, x);
      case None =>
    }
  }

  lemma StepAgrees(v: PS.Revision, source: seq<byte>, a: HighlightState, b: HighlightState, ca: bool, cb: bool,
                   i: Instruction, x: nat)
    requires Agree(a, b, x)
    ensures Step(v, source, ca, a, i).Threw? == Step(v, source, cb, b, i).Threw?
    ensures Step(v, source, ca, a, i).Next? ==> Agree(Step(v, source, ca, a, i).state, Step(v, source, cb, b, i).state, x)
  {
    if a.inComment != 0 {
      CommentStepAgrees(v, a, b, ca, cb, i, x);
    } else {
      OutsideStepAgrees(source, a, b, ca, cb, i, x);
    }
  }

  /** Coalescing changes how many spans there are, never which bytes are
    * annotated nor with what: with and without it the loop throws on the
    * same streams, ends at the same `index` and annotates every byte the
    * same. */
  lemma {:induction false} CoalescingAnnotatesTheSame(v: PS.Revision, source: seq<byte>, prior: seq<HighlightSpan>,
                                                      instrs: seq<Instruction>, x: nat)
    ensures Run(v, source, true, prior, instrs).Threw? == Run(v, source, false, prior, instrs).Threw?
    ensures Run(v, source, true, prior, instrs).Next? ==>
      Agree(Run(v, source, true, prior, instrs).state, Run(v, source, false, prior, instrs).state, x)
    decreases |instrs|
  {
    if instrs != [] {
      var init := instrs[..|instrs| - 1];
      CoalescingAnnotatesTheSame(v, source, prior, init, x);
      if Run(v, source, true, prior, init).Next? {
        StepAgrees(v, source, Run(v, source, true, prior, init).state, Run(v, source, false, prior, init).state,
                   true, false, instrs[|instrs| - 1], x);
      }
    }
  }

  /** How far `index` trails the source position `w` reached by the
    * instructions so far: outside comments not at all; in a comment by
    * the delimiter counted so far, or inside its block by the content
    * counted so far (the delimiter has then been emitted and reset). */
  predicate Aligned(st: HighlightState, w: nat)
  {
    && (st.inComment == 0 ==> st.index == w)
    && (st.inComment == 1 ==> st.index + st.delimiterLength == w)
    && (st.inComment > 1 ==> st.index + st.contentLength == w && st.delimiterLength == 0)
  }

  lemma LeaveCommentAligned(st: HighlightState, coalescing: bool, w: nat)
    requires st.inComment == 1 && Aligned(st, w)
    ensures LeaveComment(PS.Corrected, coalescing, st).index == w
    ensures LeaveComment(PS.Corrected, coalescing, st).inComment == 0
  {
  }

  lemma CorrectedCommentStepAligned(coalescing: bool, st: HighlightState, i: Instruction, w: nat)
    requires st.inComment != 0 && Aligned(st, w)
    ensures Aligned(CommentStep(PS.Corrected, coalescing, st, i), w + Advance(i))
  {
    if i.kind == PopDirective || i.kind == PopBlock {
      if st.inComment == 1 {
        LeaveCommentAligned(st, coalescing, w);
      }
    }
  }

  lemma CorrectedStepAligned(source: seq<byte>, coalescing: bool, st: HighlightState, i: Instruction, w: nat)
    requires Aligned(st, w)
    requires Step(PS.Corrected, source, coalescing, st, i).Next?
    ensures Aligned(Step(PS.Corrected, source, coalescing, st, i).state, w + Advance(i))
  {
    if st.inComment != 0 {
      CorrectedCommentStepAligned(coalescing, st, i, w);
    } else if OutsideStep(source, coalescing, st, i).state.inComment == 0 {
      OutsideStepAnnotates(source, coalescing, st, i, 0);
    }
  }

  /** With the correction, the highlighter keeps its `index` on the source:
    * after any stream that ends outside a comment, `index` is exactly the
    * width of the source the stream covers; inside a comment it trails by
    * the bytes the comment has not yet emitted. */
  lemma {:induction false} CorrectedRunAligned(source: seq<byte>, coalescing: bool, prior: seq<HighlightSpan>,
                                               instrs: seq<Instruction>)
    requires Run(PS.Corrected, source, coalescing, prior, instrs).Next?
    ensures Aligned(Run(PS.Corrected, source, coalescing, prior, instrs).state, Width(instrs))
    decreases |instrs|
  {
    if instrs != [] {
      var init := instrs[..|instrs| - 1];
      CorrectedRunAligned(source, coalescing, prior, init);
      CorrectedStepAligned(source, coalescing, Run(PS.Corrected, source, coalescing, prior, init).state,
                           instrs[|instrs| - 1], Width(init));
    }
  }

  /** Hence, with the correction, no span of a stream ending outside
    * comments reaches past the source the stream covers. */
  lemma CorrectedSpansWithinSource(source: seq<byte>, coalescing: bool, instrs: seq<Instruction>)
    requires Run(PS.Corrected, source, coalescing, [], instrs).Next?
    requires Run(PS.Corrected, source, coalescing, [], instrs).state.inComment == 0
    ensures var out := Run(PS.Corrected, source, coalescing, [], instrs).state.out;
      Ascending(out) && (out != [] ==> out[|out| - 1].End() <= Width(instrs))
  {
    CorrectedRunAligned(source, coalescing, [], instrs);
    RunKeepsOrdered(PS.Corrected, source, coalescing, instrs);
  }

  // ---------------------------------------------------------------------
  // Finding: a comment directive without a block.

  /** The source `\comment\b`: a comment directive without a block, then `\b`. */
  const BLOCKLESS_SOURCE: seq<byte> := "\\comment\\b"

  /** What the parser emits for `BLOCKLESS_SOURCE`. */
  const BLOCKLESS_COMMENT: seq<Instruction> := [
    Instruction(PushDocument, 2), Instruction(PushDirective, 8), Instruction(PopDirective, 0),
    Instruction(PushDirective, 2), Instruction(PopDirective, 0), Instruction(PopDocument, 0)]

  /** A stream whose instructions step through `states` in turn runs to
    * the last of them. */
  lemma {:induction false} RunThrough(v: PS.Revision, source: seq<byte>, coalescing: bool, prior: seq<HighlightSpan>,
                                      instrs: seq<Instruction>, states: seq<HighlightState>)
    requires |states| == |instrs| + 1 && states[0] == Start(prior)
    requires forall k | 0 <= k < |instrs| :: Step(v, source, coalescing, states[k], instrs[k]) == Next(states[k + 1])
    ensures Run(v, source, coalescing, prior, instrs) == Next(states[|instrs|])
    decreases |instrs|
  {
    if instrs != [] {
      var n := |instrs| - 1;
      RunThrough(v, source, coalescing, prior, instrs[..n], states[..n + 1]);
    }
  }

  lemma BlocklessCommentWidth()
    ensures Width(BLOCKLESS_COMMENT) == 10
  {
    var b := BLOCKLESS_COMMENT;
    assert b[..1][..0] == [];
    assert Width(b[..1]) == 0;
    assert b[..2][..1] == b[..1] && b[1] == Instruction(PushDirective, 8);
    assert Width(b[..2]) == 8;
    assert b[..3][..2] == b[..2];
    assert b[..4][..3] == b[..3] && b[3] == Instruction(PushDirective, 2);
    assert Width(b[..4]) == 10;
    assert b[..5][..4] == b[..4];
    assert b[..6][..5] == b[..5] && b[..6] == b;
  }

  /** The states the loop passes through on `BLOCKLESS_COMMENT` over the
    * source `\comment\b`. */
  function BlocklessStates(v: PS.Revision): (r: seq<HighlightState>)
    ensures |r| == |BLOCKLESS_COMMENT| + 1
  {
    var s0 := Start([]);
    var s2 := HighlightState([], 0, 1, 8, 0);
    if v == PS.AsWritten then
      var s3 := HighlightState([], 0, 0, 8, 0);
      var s4 := HighlightState([Span(0, 2, Tag)], 2, 0, 8, 0);
      [s0, s0, s2, s3, s4, s4, s4]
    else
      var s3 := HighlightState([Span(0, 8, CommentDelimiter)], 8, 0, 0, 0);
      var s4 := HighlightState([Span(0, 8, CommentDelimiter), Span(8, 2, Tag)], 10, 0, 0, 0);
      [s0, s0, s2, s3, s4, s4, s4]
  }

  lemma BlocklessStep(v: PS.Revision, k: nat)
    requires k < |BLOCKLESS_COMMENT|
    ensures Step(v, BLOCKLESS_SOURCE, false, BlocklessStates(v)[k], BLOCKLESS_COMMENT[k]) == Next(BlocklessStates(v)[k + 1])
  {
    var s := BLOCKLESS_SOURCE;
    var states := BlocklessStates(v);
    var i := BLOCKLESS_COMMENT[k];
    if k == 0 || k == 5 {
      assert i.kind == PushDocument || i.kind == PopDocument;
      assert states[k + 1] == states[k];
    } else if k == 1 {
      assert i == Instruction(PushDirective, 8) && states[1] == Start([]);
      assert Substr(s, 0, 8) == "\\comment";
      assert states[2] == HighlightState([], 0, 1, 8, 0);
    } else if k == 2 {
      assert i == Instruction(PopDirective, 0) && states[2] == HighlightState([], 0, 1, 8, 0);
      if v == PS.AsWritten {
        assert states[3] == HighlightState([], 0, 0, 8, 0);
      } else {
        assert states[3] == HighlightState([Span(0, 8, CommentDelimiter)], 8, 0, 0, 0);
      }
    } else if k == 3 {
      assert i == Instruction(PushDirective, 2);
      if v == PS.AsWritten {
        assert states[3] == HighlightState([], 0, 0, 8, 0);
        assert Substr(s, 0, 2) == "\\c";
        assert !IsCommentName(Substr(s, 0, 2)) by { assert |Substr(s, 0, 2)| == 2; }
        assert states[4] == HighlightState([Span(0, 2, Tag)], 2, 0, 8, 0);
      } else {
        assert states[3] == HighlightState([Span(0, 8, CommentDelimiter)], 8, 0, 0, 0);
        assert Substr(s, 8, 2) == "\\b";
        assert !IsCommentName(Substr(s, 8, 2)) by { assert |Substr(s, 8, 2)| == 2; }
        assert states[4] == HighlightState([Span(0, 8, CommentDelimiter), Span(8, 2, Tag)], 10, 0, 0, 0);
      }
    } else {
      assert i == Instruction(PopDirective, 0) && states[4].inComment == 0;
      assert states[5] == states[4];
    }
  }

  lemma BlocklessRun(v: PS.Revision)
    ensures Run(v, BLOCKLESS_SOURCE, false, [], BLOCKLESS_COMMENT) == Next(BlocklessStates(v)[|BLOCKLESS_COMMENT|])
  {
    forall k | 0 <= k < |BLOCKLESS_COMMENT|
      ensures Step(v, BLOCKLESS_SOURCE, false, BlocklessStates(v)[k], BLOCKLESS_COMMENT[k]) == Next(BlocklessStates(v)[k + 1])
    {
      BlocklessStep(v, k);
    }
    RunThrough(v, BLOCKLESS_SOURCE, false, [], BLOCKLESS_COMMENT, BlocklessStates(v));
  }

  /** As written, `\comment` without a block leaves comment mode without
    * moving `index` past its 8 bytes, so the tag of `\b` at offsets 8..9
    * is emitted at offsets 0..1, inside the comment's name, and `index`
    * ends 8 bytes short of the source the stream covers. */
  lemma BlocklessCommentAsWritten()
    ensures Width(BLOCKLESS_COMMENT) == 10
    ensures Run(PS.AsWritten, BLOCKLESS_SOURCE, false, [], BLOCKLESS_COMMENT)
      == Next(HighlightState([Span(0, 2, Tag)], 2, 0, 8, 0))
  {
    BlocklessCommentWidth();
    BlocklessRun(PS.AsWritten);
  }

  /** With the correction the comment's name is emitted as its delimiter
    * and the tag lands on `\b`. */
  lemma BlocklessCommentCorrected()
    ensures Run(PS.Corrected, BLOCKLESS_SOURCE, false, [], BLOCKLESS_COMMENT)
      == Next(HighlightState([Span(0, 8, CommentDelimiter), Span(8, 2, Tag)], 10, 0, 0, 0))
  {
    BlocklessRun(PS.Corrected);
  }

  // ---------------------------------------------------------------------
  // The loop.

  /** The operands `emit` is called with outside comments. */
  predicate EmitsOperand(t: InstructionType)
  {
    t == Escape || t == ArgumentName || t == PushDirective
  }

  /** The variables captured by the `emit` lambda and updated by the loop. */
  class Highlighter {
    const revision: PS.Revision
    const source: seq<byte>
    const coalescing: bool
    var out: seq<HighlightSpan>
    var index: nat
    var inComment: nat
    var delimiterLength: nat
    var contentLength: nat

    function Snapshot(): HighlightState
      reads this
    {
      HighlightState(out, index, inComment, delimiterLength, contentLength)
    }

    constructor(revision: PS.Revision, source: seq<byte>, options: HighlightOptions, out: seq<HighlightSpan>)
      ensures this.revision == revision && this.source == source && coalescing == options.coalescing
      ensures Snapshot() == Start(out)
    {
      this.revision := revision;
      this.source := source;
      coalescing := options.coalescing;
      this.out := out;
      index := 0;
      inComment := 0;
      delimiterLength := 0;
      contentLength := 0;
    }

    /** `emit`; a zero length fails its debug assertion. */
    method Emit(length: nat, t: HighlightType)
      requires length != 0
      modifies this
      ensures Snapshot() == EmitSpan(old(Snapshot()), coalescing, length, t)
    {
      if coalescing && out != [] && out[|out| - 1].value == t && out[|out| - 1].End() == index {
        out := out[|out| - 1 := out[|out| - 1].(length := out[|out| - 1].length + length)];
      } else {
        out := out + [Span(index, length, t)];
      }
      index := index + length;
    }

    /** `target += k`. */
    method Count(k: nat)
      modifies this
      ensures Snapshot() == AddToTarget(old(Snapshot()), k)
    {
      if inComment > 1 {
        contentLength := contentLength + k;
      } else {
        delimiterLength := delimiterLength + k;
      }
    }

    method Leave()
      modifies this
      ensures Snapshot() == LeaveComment(revision, coalescing, old(Snapshot()))
    {
      inComment := 0;
      if revision == PS.Corrected && delimiterLength != 0 {
        Emit(delimiterLength, CommentDelimiter);
        delimiterLength := 0;
      }
    }

    method ProcessInComment(i: Instruction)
      requires inComment != 0
      modifies this
      ensures Snapshot() == CommentStep(revision, coalescing, old(Snapshot()), i)
    {
      match i.kind
      case Skip | Escape | Text | ArgumentName | PushDirective =>
        Count(i.n);
      case PopDirective =>
        if inComment == 1 {
          Leave();
        }
      case ArgumentEqual | ArgumentComma | PushArguments | PopArguments =>
        Count(1);
      case PushDocument | PopDocument | PushArgument | PopArgument =>
      case PushBlock =>
        var opening := inComment <= 1;
        Count(1);
        inComment := inComment + 1;
        if opening {
          Emit(delimiterLength, CommentDelimiter);
          if revision == PS.Corrected {
            delimiterLength := 0;
            contentLength := 0;
          }
        }
      case PopBlock =>
        if inComment == 2 {
          inComment := 1;
          if contentLength != 0 {
            Emit(contentLength, Comment);
          }
          Emit(1, CommentDelimiter);
        } else if inComment == 1 && revision == PS.Corrected {
          Leave();
          Emit(1, SymbolImportant);
        } else {
          inComment := inComment - 1;
          contentLength := contentLength + 1;
        }
    }

    /** Returns whether `substr` threw. */
    method ProcessOutside(i: Instruction) returns (threw: bool)
      requires inComment == 0
      requires EmitsOperand(i.kind) ==> i.n != 0
      modifies this
      ensures var r := OutsideStep(source, coalescing, old(Snapshot()), i);
        threw == r.Threw? && (r.Next? ==> Snapshot() == r.state)
    {
      threw := false;
      match i.kind
      case Skip | Text =>
        index := index + i.n;
      case Escape =>
        Emit(i.n, StringEscape);
      case ArgumentName =>
        Emit(i.n, Attribute);
      case PushDirective =>
        if index > |source| {
          return true;
        }
        var name := Substr(source, index, i.n);
        if name == "\\comment" || name == "\\-comment" {
          inComment := 1;
          delimiterLength := i.n;
          contentLength := 0;
        } else {
          Emit(i.n, Tag);
        }
      case ArgumentEqual | ArgumentComma =>
        Emit(1, Symbol);
      case PushArguments | PopArguments | PushBlock | PopBlock =>
        Emit(1, SymbolImportant);
      case PushDocument | PopDocument | PushArgument | PopArgument | PopDirective =>
    }

    method Process(i: Instruction) returns (threw: bool)
      requires EmitsOperand(i.kind) ==> i.n != 0
      modifies this
      ensures var r := Step(revision, source, coalescing, old(Snapshot()), i);
        threw == r.Threw? && (r.Next? ==> Snapshot() == r.state)
    {
      if inComment != 0 {
        ProcessInComment(i);
        threw := false;
      } else {
        threw := ProcessOutside(i);
      }
    }
  }

  /** `highlight_mmml` over an instruction stream: appends to `out` the
    * spans `Run` describes, or reports that `substr` threw. */
  method HighlightMarkup(revision: PS.Revision, out: seq<HighlightSpan>, source: seq<byte>,
                         instrs: seq<Instruction>, options: HighlightOptions)
    returns (threw: bool, result: seq<HighlightSpan>)
    requires forall k | 0 <= k < |instrs| :: EmitsOperand(instrs[k].kind) ==> instrs[k].n != 0
    ensures var r := Run(revision, source, options.coalescing, out, instrs);
      threw == r.Threw? && (r.Next? ==> result == r.state.out)
  {
    var h := new Highlighter(revision, source, options, out);
    for k := 0 to |instrs|
      invariant h.revision == revision && h.source == source && h.coalescing == options.coalescing
      invariant Run(revision, source, options.coalescing, out, instrs[..k]) == Next(h.Snapshot())
    {
      assert instrs[..k + 1][..k] == instrs[..k];
      threw := h.Process(instrs[k]);
      if threw {
        RunThrewStays(revision, source, options.coalescing, out, instrs, k + 1);
        return true, h.out;
      }
    }
    assert instrs[..|instrs|] == instrs;
    return false, h.out;
  }
}
