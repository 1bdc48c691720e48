/*
 * The paragraph-splitting visitor `To_HTML_Paragraphs` of
 * src/main/cpp/directive_processing.cpp.  Block content closes an open
 * `<p>`, inline content opens one when none is, and blank lines in text
 * act as block separators.
 *
 * The visitor is a class whose `state` is `m_state`; what each of its
 * operations writes and which state it leaves is given by the functions
 * before it.  Two lines of the source behave differently from what they
 * evidently mean to do; `PS.Revision` selects the code as written or as
 * corrected:
 *  - the directive visitor runs the error behaviour after every directive,
 *    not only after one that nobody resolved;
 *  - trimming a text node on the right trims it on the left.
 */
module HtmlParagraphs {
  import opened Chars
  import opened Options
  import opened DirectiveKinds
  import opened Ast
  import opened Directives
  import opened HtmlWriters
  import opened ParseUtils
  import opened ProcessingModes
  import opened HtmlGeneration
  import PS = ParseSpec

  const P: seq<byte> := "p"

  /** What an operation writes, and the state it leaves. */
  datatype Written = Written(events: seq<HtmlEvent>, state: ParagraphsState)

  /** `transition`: inline content opens a paragraph unless one is open,
    * block content closes the open one, `none` does nothing. */
  function TransitionHtml(display: Display, st: ParagraphsState): (w: Written)
    ensures display == InLine ==> w.state == Inside
    ensures display == Block ==> w.state == Outside
  {
    match display
    case NoDisplay => Written([], st)
    case InLine => if st.Outside? then Written([OpenTag(P)], Inside) else Written([], Inside)
    case Block => if st.Inside? then Written([CloseTag(P)], Outside) else Written([], Outside)
  }

  /** `on_directive`: the behaviour's display, then its HTML. */
  function BehaviorParagraphs(ctx: Context, b: Behavior, d: Content, st: ParagraphsState): Written
  {
    var t := TransitionHtml(b.display, st);
    Written(t.events + ctx.generateHtml(b, d), t.state)
  }

  /** The directive visitor: a directive nobody resolves, in a context
    * without an error behaviour, writes nothing and keeps the state. */
  function DirectiveParagraphs(ctx: Context, d: Content, st: ParagraphsState, rev: PS.Revision): (w: Written)
    requires d.DirectiveNode? && NodeWithin(d, ctx.source)
    ensures ctx.Resolve(d).None? && ctx.errorBehavior.None? ==> w == Written([], st)
  {
    var resolved := ctx.Resolve(d);
    var first := if resolved.Some? then BehaviorParagraphs(ctx, resolved.value, d, st) else Written([], st);
    if ctx.errorBehavior.Some? && (rev == PS.AsWritten || resolved.None?) then
      var second := BehaviorParagraphs(ctx, ctx.errorBehavior.value, d, first.state);
      Written(first.events + second.events, second.state)
    else first
  }

  /** The visitor of generated content: its own display, then its HTML. */
  function GeneratedParagraphs(ctx: Context, g: Content, st: ParagraphsState): Written
    requires g.GeneratedNode?
  {
    var t := TransitionHtml(g.display, st);
    Written(t.events + ContentHtml(ctx, g), t.state)
  }

  /** The visitor of an escape, which is inline. */
  function EscapedParagraphs(ctx: Context, e: Content, st: ParagraphsState): Written
    requires e.EscapedNode? && NodeWithin(e, ctx.source)
  {
    var t := TransitionHtml(InLine, st);
    Written(t.events + ContentHtml(ctx, e), t.state)
  }

  /** The text the text visitor works on, after the requested trimming. */
  function TrimmedText(s: seq<byte>, trimLeft: bool, trimRight: bool, rev: PS.Revision): seq<byte>
  {
    var l := if trimLeft then TrimAsciiBlankLeft(s) else s;
    if !trimRight then l
    else if rev == PS.AsWritten then TrimAsciiBlankLeft(l)
    else TrimAsciiBlankRight(l)
  }

  /** The loop of the text visitor: up to the next blank line sequence, the
    * text is inline; the sequence itself closes the paragraph. It writes
    * nothing exactly for the empty text. */
  function BlankLineSplit(s: seq<byte>, st: ParagraphsState): (w: Written)
    ensures w.events == [] <==> s == []
    decreases |s|, 1
  {
    if s == [] then Written([], st)
    else
      var blank := FindBlankLineSequence(s);
      BlankLineBounds(s);
      if !blank.IsTruthy() then TextAs(InLine, s, st)
      else SplitAt(s, st, blank)
  }

  /** One round of that loop, at the blank line sequence `blank`, then the
    * rest of the loop. */
  function SplitAt(s: seq<byte>, st: ParagraphsState, blank: BlankLine): Written
    requires 0 < blank.length && blank.begin + blank.length <= |s|
    decreases |s|, 0
  {
    var h := ThroughBlank(s, st, blank);
    var rest := BlankLineSplit(s[blank.begin + blank.length..], h.state);
    Written(h.events + rest.events, rest.state)
  }

  /** One round of the loop: the text before the blank line sequence,
    * inline, then the sequence, which closes the paragraph. */
  function ThroughBlank(s: seq<byte>, st: ParagraphsState, blank: BlankLine): (w: Written)
    requires blank.begin + blank.length <= |s|
    ensures w.state == Outside
  {
    var b := blank.begin;
    var e := b + blank.length;
    if b != 0 then
      var i := TextAs(InLine, s[..b], st);
      var k := TextAs(Block, s[b..e], i.state);
      Written(i.events + k.events, k.state)
    else TextAs(Block, s[b..e], st)
  }

  /** A transition, then a piece of text. */
  function TextAs(display: Display, t: seq<byte>, st: ParagraphsState): Written
  {
    var tr := TransitionHtml(display, st);
    Written(tr.events + [InnerText(t)], tr.state)
  }

  /** The bounds of what `find_blank_line_sequence` finds. */
  lemma BlankLineBounds(s: seq<byte>)
    ensures var r := FindBlankLineSequence(s);
      r.IsTruthy() ==> 0 < r.length && r.begin + r.length <= |s|
  {
    FindBlankLineSequenceSpec(s);
  }

  /** The text visitor: a single leading newline is written as it is; it
    * is a blank line of the node but not of the document. */
  function TextParagraphs(s: seq<byte>, trimLeft: bool, trimRight: bool, st: ParagraphsState, rev: PS.Revision): Written
  {
    TrimmedTextParagraphs(TrimmedText(s, trimLeft, trimRight, rev), st)
  }

  /** The text visitor after the trimming. */
  function TrimmedTextParagraphs(t: seq<byte>, st: ParagraphsState): Written
  {
    if t == [] then Written([], st)
    else LeadingNewlineParagraphs(t, st, FindBlankLineSequence(t))
  }

  /** The text visitor's special case for a blank line sequence that is a
    * single leading newline. */
  function LeadingNewlineParagraphs(t: seq<byte>, st: ParagraphsState, first: BlankLine): Written
    requires t != []
  {
    if first.begin == 0 && first.length == 1 then
      var rest := BlankLineSplit(t[1..], st);
      Written([InnerText([t[0]])] + rest.events, rest.state)
    else BlankLineSplit(t, st)
  }

  /** What the loop of `to_html` in a paragraphs mode does with node `i`:
    * in the trimmed mode, the first text is trimmed on the left and the
    * last on the right. */
  function NodeParagraphs(ctx: Context, cs: seq<Content>, i: nat, trimmed: bool, st: ParagraphsState, rev: PS.Revision): Written
    requires i < |cs| && NodeWithin(cs[i], ctx.source)
  {
    match cs[i]
    case TextNode(pos) =>
      var s := SpanSource(pos, ctx.source);
      if trimmed then TextParagraphs(s, i == 0, i + 1 == |cs|, st, rev) else TextParagraphs(s, false, false, st, rev)
    case DirectiveNode(_, _, _, _) => DirectiveParagraphs(ctx, cs[i], st, rev)
    case GeneratedNode(_, _, _) => GeneratedParagraphs(ctx, cs[i], st)
    case EscapedNode(_) => EscapedParagraphs(ctx, cs[i], st)
  }

  /** The first `n` nodes. */
  function ParagraphsUpTo(ctx: Context, cs: seq<Content>, trimmed: bool, st: ParagraphsState, rev: PS.Revision, n: nat): Written
    requires n <= |cs| && NodesWithin(cs, ctx.source)
  {
    if n == 0 then Written([], st)
    else
      var p := ParagraphsUpTo(ctx, cs, trimmed, st, rev, n - 1);
      var w := NodeParagraphs(ctx, cs, n - 1, trimmed, p.state, rev);
      Written(p.events + w.events, w.state)
  }

  lemma ConcatAssoc<T>(a: seq<T>, b: seq<T>, c: seq<T>)
    ensures a + b + c == a + (b + c)
  {
  }

  /** The first `n` nodes are the first `n - 1` and then node `n - 1`. */
  lemma UpToStep(ctx: Context, cs: seq<Content>, trimmed: bool, st: ParagraphsState, rev: PS.Revision, n: nat,
                 p: Written, w: Written, r: Written)
    requires 0 < n <= |cs| && NodesWithin(cs, ctx.source)
    requires p == ParagraphsUpTo(ctx, cs, trimmed, st, rev, n - 1)
    requires w == NodeParagraphs(ctx, cs, n - 1, trimmed, p.state, rev)
    requires r == ParagraphsUpTo(ctx, cs, trimmed, st, rev, n)
    ensures r == Written(p.events + w.events, w.state)
  {
  }

  /** Every node, then `flush`, which leaves no paragraph open. */
  function ParagraphsHtml(ctx: Context, cs: seq<Content>, trimmed: bool, st: ParagraphsState, rev: PS.Revision): (w: Written)
    requires NodesWithin(cs, ctx.source)
    ensures w.state == Outside
  {
    var p := ParagraphsUpTo(ctx, cs, trimmed, st, rev, |cs|);
    var f := TransitionHtml(Block, p.state);
    Written(p.events + f.events, f.state)
  }

  // ---------------------------------------------------------------------
  // The visitor.

  class ParagraphsWriter {
    const out: HtmlWriter
    const ctx: Context
    const revision: PS.Revision
    /** `m_state`. */
    var state: ParagraphsState

    constructor (out: HtmlWriter, ctx: Context, initialState: ParagraphsState, revision: PS.Revision)
      ensures this.out == out && this.ctx == ctx && state == initialState && this.revision == revision
    {
      this.out := out;
      this.ctx := ctx;
      this.revision := revision;
      state := initialState;
    }

    method Transition(display: Display)
      modifies this, out
      ensures out.events == old(out.events) + TransitionHtml(display, old(state)).events
      ensures state == TransitionHtml(display, old(state)).state
    {
      match display
      case NoDisplay =>
      case InLine =>
        if state == Outside {
          out.OpenTag(P);
          state := Inside;
        }
      case Block =>
        if state == Inside {
          out.CloseTag(P);
          state := Outside;
        }
    }

    method OnDirective(b: Behavior, d: Content)
      modifies this, out
      ensures out.events == old(out.events) + BehaviorParagraphs(ctx, b, d, old(state)).events
      ensures state == BehaviorParagraphs(ctx, b, d, old(state)).state
    {
      Transition(b.display);
      out.events := out.events + ctx.generateHtml(b, d);
    }

    method VisitDirective(d: Content)
      requires d.DirectiveNode? && NodeWithin(d, ctx.source)
      modifies this, out
      ensures out.events == old(out.events) + DirectiveParagraphs(ctx, d, old(state), revision).events
      ensures state == DirectiveParagraphs(ctx, d, old(state), revision).state
    {
      ghost var e0, s0 := out.events, state;
      var behavior := ctx.FindDirectiveOf(d);
      assert behavior == ctx.Resolve(d);
      ghost var first := if behavior.Some? then BehaviorParagraphs(ctx, behavior.value, d, s0) else Written([], s0);
      if behavior.Some? {
        OnDirective(behavior.value, d);
      }
      assert out.events == e0 + first.events && state == first.state;
      if ctx.errorBehavior.Some? && (revision == PS.AsWritten || behavior.None?) {
        ghost var second := BehaviorParagraphs(ctx, ctx.errorBehavior.value, d, first.state);
        OnDirective(ctx.errorBehavior.value, d);
        ConcatAssoc(e0, first.events, second.events);
      }
    }

    method VisitGenerated(g: Content)
      requires g.GeneratedNode?
      modifies this, out
      ensures out.events == old(out.events) + GeneratedParagraphs(ctx, g, old(state)).events
      ensures state == GeneratedParagraphs(ctx, g, old(state)).state
    {
      Transition(g.display);
      ToHtmlContent(out, ctx, g);
    }

    method VisitEscaped(e: Content)
      requires e.EscapedNode? && NodeWithin(e, ctx.source)
      modifies this, out
      ensures out.events == old(out.events) + EscapedParagraphs(ctx, e, old(state)).events
      ensures state == EscapedParagraphs(ctx, e, old(state)).state
    {
      Transition(InLine);
      ToHtmlContent(out, ctx, e);
    }

    method VisitText(t: Content, trimLeft: bool, trimRight: bool)
      requires t.TextNode? && NodeWithin(t, ctx.source)
      modifies this, out
      ensures var w := TextParagraphs(SpanSource(t.pos, ctx.source), trimLeft, trimRight, old(state), revision);
        out.events == old(out.events) + w.events && state == w.state
    {
      var text := SpanSource(t.pos, ctx.source);
      if trimLeft {
        text := TrimAsciiBlankLeft(text);
      }
      if trimRight {
        text := if revision == PS.AsWritten then TrimAsciiBlankLeft(text) else TrimAsciiBlankRight(text);
      }
      if text == [] {
        return;
      }
      assert text == TrimmedText(SpanSource(t.pos, ctx.source), trimLeft, trimRight, revision);
      var first := FindBlankLineSequence(text);
      WriteFromLeadingNewline(text, first);
    }

    method WriteFromLeadingNewline(text: seq<byte>, first: BlankLine)
      requires text != []
      modifies this, out
      ensures var w := LeadingNewlineParagraphs(text, old(state), first);
        out.events == old(out.events) + w.events && state == w.state
    {
      var rest := text;
      if first.begin == 0 && first.length == 1 {
        out.WriteInnerText([text[0]]);
        rest := text[1..];
      }
      WriteBlankLineSplit(rest);
    }

    /** The loop of the text visitor. */
    method WriteBlankLineSplit(text0: seq<byte>)
      modifies this, out
      ensures var w := BlankLineSplit(text0, old(state));
        out.events == old(out.events) + w.events && state == w.state
    {
      var text := text0;
      while text != []
        invariant old(out.events) + BlankLineSplit(text0, old(state)).events
          == out.events + BlankLineSplit(text, state).events
        invariant BlankLineSplit(text0, old(state)).state == BlankLineSplit(text, state).state
        decreases |text|
      {
        var blank := FindBlankLineSequence(text);
        if !blank.IsTruthy() {
          WriteTextAs(InLine, text);
          text := [];
        } else {
          ghost var before := out.events;
          ghost var h := ThroughBlank(text, state, blank);
          ghost var r := BlankLineSplit(text[blank.begin + blank.length..], h.state);
          assert BlankLineSplit(text, state) == Written(h.events + r.events, r.state);
          text := WriteThroughBlank(text, blank);
          ConcatAssoc(before, h.events, r.events);
        }
      }
    }

    /** One round of the loop that finds a blank line sequence: the text
      * before it, inline, then the sequence, as block. */
    method WriteThroughBlank(text: seq<byte>, blank: BlankLine) returns (rest: seq<byte>)
      requires 0 < blank.length && blank.begin + blank.length <= |text|
      modifies this, out
      ensures rest == text[blank.begin + blank.length..]
      ensures out.events == old(out.events) + ThroughBlank(text, old(state), blank).events
      ensures state == ThroughBlank(text, old(state), blank).state
    {
      var b := blank.begin;
      var e := b + blank.length;
      if b != 0 {
        WriteTextAs(InLine, text[..b]);
      }
      WriteTextAs(Block, text[b..e]);
      rest := text[e..];
    }

    method WriteTextAs(display: Display, text: seq<byte>)
      modifies this, out
      ensures out.events == old(out.events) + TextAs(display, text, old(state)).events
      ensures state == TextAs(display, text, old(state)).state
    {
      Transition(display);
      out.WriteInnerText(text);
    }

    method Flush()
      modifies this, out
      ensures out.events == old(out.events) + TransitionHtml(Block, old(state)).events
      ensures state == Outside
    {
      Transition(Block);
    }

    /** One round of the loop of `to_html` in a paragraphs mode. */
    method VisitNode(cs: seq<Content>, i: nat, trimmed: bool) returns (ghost w: Written)
      requires i < |cs| && NodeWithin(cs[i], ctx.source)
      modifies this, out
      ensures w == NodeParagraphs(ctx, cs, i, trimmed, old(state), revision)
      ensures out.events == old(out.events) + w.events && state == w.state
    {
      w := NodeParagraphs(ctx, cs, i, trimmed, state, revision);
      match cs[i]
      case TextNode(_) =>
        if trimmed {
          VisitText(cs[i], i == 0, i + 1 == |cs|);
        } else {
          VisitText(cs[i], false, false);
        }
      case DirectiveNode(_, _, _, _) => VisitDirective(cs[i]);
      case GeneratedNode(_, _, _) => VisitGenerated(cs[i]);
      case EscapedNode(_) => VisitEscaped(cs[i]);
    }

    /** The loop of `to_html` in a paragraphs mode, and `flush`. */
    method WriteAll(cs: seq<Content>, trimmed: bool)
      requires NodesWithin(cs, ctx.source)
      modifies this, out
      ensures var w := ParagraphsHtml(ctx, cs, trimmed, old(state), revision);
        out.events == old(out.events) + w.events && state == w.state
    {
      ghost var p := Written([], state);
      for i := 0 to |cs|
        invariant p == ParagraphsUpTo(ctx, cs, trimmed, old(state), revision, i)
        invariant out.events == old(out.events) + p.events && state == p.state
      {
        p := VisitNext(cs, i, trimmed, old(out.events), old(state), p);
      }
      Flush();
      ConcatAssoc(old(out.events), p.events, TransitionHtml(Block, p.state).events);
    }

    /** One turn of the loop: node `i` is visited after the first `i`. */
    method VisitNext(cs: seq<Content>, i: nat, trimmed: bool, ghost base: seq<HtmlEvent>, ghost st: ParagraphsState,
                     ghost p: Written)
      returns (ghost r: Written)
      requires i < |cs| && NodesWithin(cs, ctx.source)
      requires p == ParagraphsUpTo(ctx, cs, trimmed, st, revision, i)
      requires out.events == base + p.events && state == p.state
      modifies this, out
      ensures r == ParagraphsUpTo(ctx, cs, trimmed, st, revision, i + 1)
      ensures out.events == base + r.events && state == r.state
    {
      assert NodeWithin(cs[i], ctx.source);
      var w := VisitNode(cs, i, trimmed);
      r := ParagraphsUpTo(ctx, cs, trimmed, st, revision, i + 1);
      UpToStep(ctx, cs, trimmed, st, revision, i + 1, p, w, r);
      ConcatAssoc(base, p.events, w.events);
    }
  }

  // ---------------------------------------------------------------------
  // Properties.

  /** The text written, in order: the payloads of the `write_inner_text`
    * calls. */
  function InnerTexts(events: seq<HtmlEvent>): seq<byte>
  {
    if events == [] then []
    else
      var e := events[|events| - 1];
      InnerTexts(events[..|events| - 1]) + (if e.InnerText? then e.text else [])
  }

  lemma {:induction false} InnerTextsConcat(a: seq<HtmlEvent>, b: seq<HtmlEvent>)
    ensures InnerTexts(a + b) == InnerTexts(a) + InnerTexts(b)
    decreases |b|
  {
    if b == [] {
      assert a + b == a;
    } else {
      InnerTextsConcat(a, b[..|b| - 1]);
      assert (a + b)[..|a + b| - 1] == a + b[..|b| - 1];
      assert (a + b)[|a + b| - 1] == b[|b| - 1];
    }
  }

  lemma InnerTextsOfTransition(display: Display, st: ParagraphsState)
    ensures InnerTexts(TransitionHtml(display, st).events) == []
  {
    var e := TransitionHtml(display, st).events;
    if e != [] {
      assert e[..0] == [];
    }
  }

  lemma InnerTextsOfText(t: seq<byte>)
    ensures InnerTexts([InnerText(t)]) == t
  {
    assert [InnerText(t)][..0] == [];
  }

  lemma TextAsKeepsText(display: Display, t: seq<byte>, st: ParagraphsState, w: Written)
    requires w == TextAs(display, t, st)
    ensures InnerTexts(w.events) == t
  {
    var tr := TransitionHtml(display, st);
    InnerTextsConcat(tr.events, [InnerText(t)]);
    InnerTextsOfTransition(display, st);
    InnerTextsOfText(t);
  }

  /** The loop of the text visitor writes every byte of its text, in order
    * and once: it only decides where the paragraphs break. */
  lemma {:induction false} BlankLineSplitKeepsText(s: seq<byte>, st: ParagraphsState)
    ensures InnerTexts(BlankLineSplit(s, st).events) == s
    decreases |s|, 1
  {
    if s != [] {
      var blank := FindBlankLineSequence(s);
      BlankLineBounds(s);
      if !blank.IsTruthy() {
        TextAsKeepsText(InLine, s, st, TextAs(InLine, s, st));
      } else {
        SplitAtKeepsText(s, st, blank);
      }
    }
  }

  lemma {:induction false} SplitAtKeepsText(s: seq<byte>, st: ParagraphsState, blank: BlankLine)
    requires 0 < blank.length && blank.begin + blank.length <= |s|
    ensures InnerTexts(SplitAt(s, st, blank).events) == s
    decreases |s|, 0
  {
    var b := blank.begin;
    var e := b + blank.length;
    var h := ThroughBlank(s, st, blank);
    var rest := BlankLineSplit(s[e..], h.state);
    BlankLineSplitKeepsText(s[e..], h.state);
    ThroughBlankKeepsText(s, st, blank, h);
    InnerTextsConcat(h.events, rest.events);
    SliceJoin(s, b, e);
  }

  lemma ThroughBlankKeepsText(s: seq<byte>, st: ParagraphsState, blank: BlankLine, w: Written)
    requires blank.begin + blank.length <= |s| && w == ThroughBlank(s, st, blank)
    ensures InnerTexts(w.events) == s[..blank.begin] + s[blank.begin..blank.begin + blank.length]
  {
    var b := blank.begin;
    var e := b + blank.length;
    if b != 0 {
      var i := TextAs(InLine, s[..b], st);
      var k := TextAs(Block, s[b..e], i.state);
      assert w == Written(i.events + k.events, k.state);
      TwoTextsKeepText(s[..b], s[b..e], st, i, k, w);
    } else {
      assert w == TextAs(Block, s[b..e], st);
      TextAsKeepsText(Block, s[b..e], st, w);
      assert s[..b] + s[b..e] == s[b..e];
    }
  }

  /** An inline text followed by a block one writes both texts. */
  lemma TwoTextsKeepText(t1: seq<byte>, t2: seq<byte>, st: ParagraphsState, i: Written, k: Written, w: Written)
    requires i == TextAs(InLine, t1, st) && k == TextAs(Block, t2, i.state)
    requires w == Written(i.events + k.events, k.state)
    ensures InnerTexts(w.events) == t1 + t2
  {
    TextAsKeepsText(InLine, t1, st, i);
    TextAsKeepsText(Block, t2, i.state, k);
    InnerTextsConcat(i.events, k.events);
  }

  lemma SliceJoin<T>(s: seq<T>, b: nat, e: nat)
    requires b <= e <= |s|
    ensures s[..b] + s[b..e] + s[e..] == s
  {
  }

  /** The text visitor writes exactly its text after trimming. */
  lemma TextParagraphsKeepsText(s: seq<byte>, trimLeft: bool, trimRight: bool, st: ParagraphsState, rev: PS.Revision)
    ensures InnerTexts(TextParagraphs(s, trimLeft, trimRight, st, rev).events) == TrimmedText(s, trimLeft, trimRight, rev)
  {
    var t := TrimmedText(s, trimLeft, trimRight, rev);
    if t != [] {
      LeadingNewlineKeepsText(t, st, FindBlankLineSequence(t));
    }
  }

  lemma LeadingNewlineKeepsText(t: seq<byte>, st: ParagraphsState, first: BlankLine)
    requires t != []
    ensures InnerTexts(LeadingNewlineParagraphs(t, st, first).events) == t
  {
    if first.begin == 0 && first.length == 1 {
      var rest := BlankLineSplit(t[1..], st);
      BlankLineSplitKeepsText(t[1..], st);
      InnerTextsConcat([InnerText([t[0]])], rest.events);
      InnerTextsOfText([t[0]]);
      assert [t[0]] + t[1..] == t;
    } else {
      BlankLineSplitKeepsText(t, st);
    }
  }

  /** The trimming of the text visitor as corrected removes the blanks on
    * the sides asked for; as written, trimming on the right is trimming on
    * the left. */
  lemma TrimmedTextTrims(s: seq<byte>, trimLeft: bool)
    ensures TrimmedText(s, trimLeft, true, PS.Corrected)
      == if trimLeft then TrimAsciiBlank(s) else TrimAsciiBlankRight(s)
    ensures TrimmedText(s, trimLeft, true, PS.AsWritten) == TrimAsciiBlankLeft(s)
    ensures TrimmedText(s, trimLeft, false, PS.AsWritten) == TrimmedText(s, trimLeft, false, PS.Corrected)
  {
    var f := FirstNonBlank(s, 0);
    var l := s[f..];
    if f < |s| {
      FirstNonBlankIs(l, 0, 0);
    } else {
      assert l == [];
    }
  }

  /** In the trimmed paragraphs mode with one text node `"a "`, the code as
    * written leaves the trailing blank in place; the corrected trimming
    * removes it. */
  lemma TrimRightAsWrittenKeepsBlank()
    ensures TrimmedText("a ", true, true, PS.AsWritten) == "a "
    ensures TrimmedText("a ", true, true, PS.Corrected) == "a"
  {
    var s: seq<byte> := "a ";
    FirstNonBlankIs(s, 0, 0);
    EndOfNonBlankIs(s, 2, 1);
  }

  // `p` tags.

  /** `tags`, a sequence of `<p>` and `</p>`, takes a writer from state `s`
    * to `e`: an opening tag only outside a paragraph, a closing tag only
    * inside one. */
  predicate Alternates(tags: seq<HtmlEvent>, s: ParagraphsState, e: ParagraphsState)
    decreases |tags|
  {
    if tags == [] then s == e
    else
      var last := tags[|tags| - 1];
      var init := tags[..|tags| - 1];
      if last == OpenTag(P) then e == Inside && Alternates(init, s, Outside)
      else last == CloseTag(P) && e == Outside && Alternates(init, s, Inside)
  }

  lemma {:induction false} AlternatesConcat(a: seq<HtmlEvent>, b: seq<HtmlEvent>, s: ParagraphsState, m: ParagraphsState, e: ParagraphsState)
    requires Alternates(a, s, m) && Alternates(b, m, e)
    ensures Alternates(a + b, s, e)
    decreases |b|
  {
    if b == [] {
      assert a + b == a;
    } else {
      var last := b[|b| - 1];
      var mid := if last == OpenTag(P) then Outside else Inside;
      AlternatesConcat(a, b[..|b| - 1], s, m, mid);
      assert (a + b)[..|a + b| - 1] == a + b[..|b| - 1];
      assert (a + b)[|a + b| - 1] == last;
    }
  }

  /** The `p` tags of `w` take the writer from `st` to `w.state`. */
  predicate Keeps(w: Written, st: ParagraphsState)
  {
    Alternates(TagEvents(w.events, P), st, w.state)
  }

  lemma KeepsConcat(a: seq<HtmlEvent>, b: seq<HtmlEvent>, s: ParagraphsState, m: ParagraphsState, e: ParagraphsState)
    requires Keeps(Written(a, m), s) && Keeps(Written(b, e), m)
    ensures Keeps(Written(a + b, e), s)
  {
    TagEventsConcat(a, b, P);
    AlternatesConcat(TagEvents(a, P), TagEvents(b, P), s, m, e);
  }

  /** What writes no `p` tag keeps the state. */
  lemma KeepsWithoutTags(a: seq<HtmlEvent>, st: ParagraphsState)
    requires TagEvents(a, P) == []
    ensures Keeps(Written(a, st), st)
  {
  }

  lemma TransitionKeeps(display: Display, st: ParagraphsState)
    ensures Keeps(TransitionHtml(display, st), st)
  {
    var e := TransitionHtml(display, st).events;
    if e != [] {
      assert e[..0] == [];
    }
  }

  lemma TextHasNoTags(t: seq<byte>)
    ensures TagEvents([InnerText(t)], P) == []
  {
    assert [InnerText(t)][..0] == [];
  }

  lemma TextAsKeeps(display: Display, t: seq<byte>, st: ParagraphsState, w: Written)
    requires w == TextAs(display, t, st)
    ensures Keeps(w, st)
  {
    var tr := TransitionHtml(display, st);
    TransitionKeeps(display, st);
    TextHasNoTags(t);
    KeepsConcat(tr.events, [InnerText(t)], st, tr.state, tr.state);
  }

  lemma {:induction false} BlankLineSplitKeeps(s: seq<byte>, st: ParagraphsState)
    ensures Keeps(BlankLineSplit(s, st), st)
    decreases |s|, 1
  {
    if s != [] {
      var blank := FindBlankLineSequence(s);
      BlankLineBounds(s);
      if !blank.IsTruthy() {
        TextAsKeeps(InLine, s, st, TextAs(InLine, s, st));
      } else {
        SplitAtKeeps(s, st, blank);
      }
    }
  }

  lemma {:induction false} SplitAtKeeps(s: seq<byte>, st: ParagraphsState, blank: BlankLine)
    requires 0 < blank.length && blank.begin + blank.length <= |s|
    ensures Keeps(SplitAt(s, st, blank), st)
    decreases |s|, 0
  {
    var h := ThroughBlank(s, st, blank);
    var rest := BlankLineSplit(s[blank.begin + blank.length..], h.state);
    ThroughBlankKeeps(s, st, blank, h);
    BlankLineSplitKeeps(s[blank.begin + blank.length..], h.state);
    KeepsConcat(h.events, rest.events, st, h.state, rest.state);
  }

  lemma ThroughBlankKeeps(s: seq<byte>, st: ParagraphsState, blank: BlankLine, w: Written)
    requires blank.begin + blank.length <= |s| && w == ThroughBlank(s, st, blank)
    ensures Keeps(w, st)
  {
    var b := blank.begin;
    var e := b + blank.length;
    if b != 0 {
      var i := TextAs(InLine, s[..b], st);
      var k := TextAs(Block, s[b..e], i.state);
      assert w == Written(i.events + k.events, k.state);
      TwoTextsKeep(s[..b], s[b..e], st, i, k, w);
    } else {
      assert w == TextAs(Block, s[b..e], st);
      TextAsKeeps(Block, s[b..e], st, w);
    }
  }

  /** An inline text followed by a block one keeps the state. */
  lemma TwoTextsKeep(t1: seq<byte>, t2: seq<byte>, st: ParagraphsState, i: Written, k: Written, w: Written)
    requires i == TextAs(InLine, t1, st) && k == TextAs(Block, t2, i.state)
    requires w == Written(i.events + k.events, k.state)
    ensures Keeps(w, st)
  {
    TextAsKeeps(InLine, t1, st, i);
    TextAsKeeps(Block, t2, i.state, k);
    KeepsSeq(i, k, w, st);
  }

  lemma TextParagraphsKeeps(s: seq<byte>, trimLeft: bool, trimRight: bool, st: ParagraphsState, rev: PS.Revision)
    ensures Keeps(TextParagraphs(s, trimLeft, trimRight, st, rev), st)
  {
    var t := TrimmedText(s, trimLeft, trimRight, rev);
    if t != [] {
      LeadingNewlineKeeps(t, st, FindBlankLineSequence(t));
    }
  }

  lemma LeadingNewlineKeeps(t: seq<byte>, st: ParagraphsState, first: BlankLine)
    requires t != []
    ensures Keeps(LeadingNewlineParagraphs(t, st, first), st)
  {
    if first.begin == 0 && first.length == 1 {
      var rest := BlankLineSplit(t[1..], st);
      BlankLineSplitKeeps(t[1..], st);
      TextHasNoTags([t[0]]);
      KeepsConcat([InnerText([t[0]])], rest.events, st, st, rest.state);
    } else {
      BlankLineSplitKeeps(t, st);
    }
  }

  /** No behaviour writes a `p` tag of its own. */
  ghost predicate BehaviorsWriteNoParagraphs(ctx: Context)
  {
    forall b: Behavior, d: Content {:trigger TagEvents(ctx.generateHtml(b, d), P)} :: TagEvents(ctx.generateHtml(b, d), P) == []
  }

  lemma BehaviorKeeps(ctx: Context, b: Behavior, d: Content, st: ParagraphsState)
    requires BehaviorsWriteNoParagraphs(ctx)
    ensures Keeps(BehaviorParagraphs(ctx, b, d, st), st)
  {
    var t := TransitionHtml(b.display, st);
    TransitionKeeps(b.display, st);
    assert TagEvents(ctx.generateHtml(b, d), P) == [];
    KeepsConcat(t.events, ctx.generateHtml(b, d), st, t.state, t.state);
  }

  lemma DirectiveKeeps(ctx: Context, d: Content, st: ParagraphsState, rev: PS.Revision)
    requires d.DirectiveNode? && NodeWithin(d, ctx.source) && BehaviorsWriteNoParagraphs(ctx)
    ensures Keeps(DirectiveParagraphs(ctx, d, st, rev), st)
  {
    var resolved := ctx.Resolve(d);
    var first := if resolved.Some? then BehaviorParagraphs(ctx, resolved.value, d, st) else Written([], st);
    if resolved.Some? {
      BehaviorKeeps(ctx, resolved.value, d, st);
    } else {
      assert TagEvents([], P) == [];
    }
    if ctx.errorBehavior.Some? && (rev == PS.AsWritten || resolved.None?) {
      var second := BehaviorParagraphs(ctx, ctx.errorBehavior.value, d, first.state);
      BehaviorKeeps(ctx, ctx.errorBehavior.value, d, first.state);
      KeepsSeq(first, second, Written(first.events + second.events, second.state), st);
    }
  }

  /** Generated content and escapes are written as one event that is not
    * a tag, after the transition. */
  lemma TransitionThenKeeps(display: Display, h: seq<HtmlEvent>, st: ParagraphsState)
    requires |h| == 1 && !h[0].OpenTag? && !h[0].CloseTag?
    ensures var t := TransitionHtml(display, st); Keeps(Written(t.events + h, t.state), st)
  {
    var t := TransitionHtml(display, st);
    TransitionKeeps(display, st);
    assert TagEvents(h, P) == [] by {
      assert h[..0] == [];
    }
    KeepsConcat(t.events, h, st, t.state, t.state);
  }

  /** The node `w` written by the loop of `to_html` keeps the state. */
  lemma NodeKeeps(ctx: Context, cs: seq<Content>, i: nat, trimmed: bool, st: ParagraphsState, rev: PS.Revision, w: Written)
    requires i < |cs| && NodeWithin(cs[i], ctx.source) && BehaviorsWriteNoParagraphs(ctx)
    requires w == NodeParagraphs(ctx, cs, i, trimmed, st, rev)
    ensures Keeps(w, st)
  {
    var c := cs[i];
    match c
    case TextNode(pos) =>
      var s := SpanSource(pos, ctx.source);
      TextParagraphsKeeps(s, trimmed && i == 0, trimmed && i + 1 == |cs|, st, rev);
      TextParagraphsKeeps(s, false, false, st, rev);
    case DirectiveNode(_, _, _, _) =>
      DirectiveKeeps(ctx, c, st, rev);
      assert NodeParagraphs(ctx, cs, i, trimmed, st, rev) == DirectiveParagraphs(ctx, c, st, rev);
    case GeneratedNode(_, _, display) =>
      TransitionThenKeeps(display, ContentHtml(ctx, c), st);
      assert NodeParagraphs(ctx, cs, i, trimmed, st, rev) == GeneratedParagraphs(ctx, c, st);
    case EscapedNode(_) =>
      TransitionThenKeeps(InLine, ContentHtml(ctx, c), st);
      assert NodeParagraphs(ctx, cs, i, trimmed, st, rev) == EscapedParagraphs(ctx, c, st);
  }

  /** What keeps the state, followed by what keeps the state it left. */
  lemma KeepsSeq(p: Written, w: Written, r: Written, st: ParagraphsState)
    requires Keeps(p, st) && Keeps(w, p.state) && r == Written(p.events + w.events, w.state)
    ensures Keeps(r, st)
  {
    KeepsConcat(p.events, w.events, st, p.state, w.state);
  }

  lemma {:induction false} UpToKeeps(ctx: Context, cs: seq<Content>, trimmed: bool, st: ParagraphsState, rev: PS.Revision, n: nat,
                                     r: Written)
    requires n <= |cs| && NodesWithin(cs, ctx.source) && BehaviorsWriteNoParagraphs(ctx)
    requires r == ParagraphsUpTo(ctx, cs, trimmed, st, rev, n)
    ensures Keeps(r, st)
  {
    if n > 0 {
      var p := ParagraphsUpTo(ctx, cs, trimmed, st, rev, n - 1);
      UpToKeeps(ctx, cs, trimmed, st, rev, n - 1, p);
      UpToKeepsStep(ctx, cs, trimmed, st, rev, n, p, r);
    }
  }

  /** When the first `n - 1` nodes keep the state, so do the first `n`. */
  lemma UpToKeepsStep(ctx: Context, cs: seq<Content>, trimmed: bool, st: ParagraphsState, rev: PS.Revision, n: nat,
                      p: Written, r: Written)
    requires 0 < n <= |cs| && NodesWithin(cs, ctx.source) && BehaviorsWriteNoParagraphs(ctx)
    requires p == ParagraphsUpTo(ctx, cs, trimmed, st, rev, n - 1) && Keeps(p, st)
    requires r == ParagraphsUpTo(ctx, cs, trimmed, st, rev, n)
    ensures Keeps(r, st)
  {
    UpToNodeKeeps(ctx, cs, trimmed, st, rev, n, p);
    UpToStep(ctx, cs, trimmed, st, rev, n, p, NodeParagraphs(ctx, cs, n - 1, trimmed, p.state, rev), r);
  }

  /** What keeps the state, followed by node `n - 1` from the state it
    * left, keeps the state. */
  lemma UpToNodeKeeps(ctx: Context, cs: seq<Content>, trimmed: bool, st: ParagraphsState, rev: PS.Revision, n: nat,
                      p: Written)
    requires 0 < n <= |cs| && NodesWithin(cs, ctx.source) && BehaviorsWriteNoParagraphs(ctx) && Keeps(p, st)
    ensures NodeWithin(cs[n - 1], ctx.source)
    ensures var w := NodeParagraphs(ctx, cs, n - 1, trimmed, p.state, rev);
      Keeps(Written(p.events + w.events, w.state), st)
  {
    assert NodeWithin(cs[n - 1], ctx.source);
    var w := NodeParagraphs(ctx, cs, n - 1, trimmed, p.state, rev);
    NodeKeeps(ctx, cs, n - 1, trimmed, p.state, rev, w);
    KeepsSeq(p, w, Written(p.events + w.events, w.state), st);
  }

  /** The exit guarantee of a paragraphs mode: when the behaviours write no
    * `p` tags of their own, the `<p>` and `</p>` written alternate,
    * starting from the state `to_html` was given, and the output leaves no
    * paragraph open.  Starting outside, paragraphs are balanced. */
  lemma ParagraphsBalanced(ctx: Context, cs: seq<Content>, trimmed: bool, st: ParagraphsState, rev: PS.Revision)
    requires NodesWithin(cs, ctx.source) && BehaviorsWriteNoParagraphs(ctx)
    ensures var w := ParagraphsHtml(ctx, cs, trimmed, st, rev);
      w.state == Outside && Alternates(TagEvents(w.events, P), st, Outside)
  {
    var p := ParagraphsUpTo(ctx, cs, trimmed, st, rev, |cs|);
    UpToKeeps(ctx, cs, trimmed, st, rev, |cs|, p);
    var f := TransitionHtml(Block, p.state);
    TransitionKeeps(Block, p.state);
    KeepsConcat(p.events, f.events, st, p.state, f.state);
  }

  // The directive visitor.

  /** As corrected, the directive visitor writes what the direct mode
    * writes for the directive, after the transition for the display of
    * the behaviour that produces it. */
  lemma DirectiveParagraphsIsDirect(ctx: Context, d: Content, st: ParagraphsState)
    requires d.DirectiveNode? && NodeWithin(d, ctx.source)
    ensures var w := DirectiveParagraphs(ctx, d, st, PS.Corrected);
      var b := if ctx.Resolve(d).Some? then ctx.Resolve(d) else ctx.errorBehavior;
      var t := TransitionHtml(if b.Some? then b.value.display else NoDisplay, st);
      w == Written(t.events + DirectiveHtml(ctx, d), t.state)
  {
  }

  /** As written, the directive visitor adds, after every directive that
    * is resolved, what the error behaviour writes for it: the HTML of
    * `\b{x}` in a context with an error behaviour is the bold text
    * followed by the error markup for the same directive. */
  lemma ErrorAfterResolvedAsWritten(ctx: Context, d: Content, st: ParagraphsState)
    requires d.DirectiveNode? && NodeWithin(d, ctx.source)
    requires ctx.Resolve(d).Some? && ctx.errorBehavior.Some?
    ensures var c := DirectiveParagraphs(ctx, d, st, PS.Corrected);
      DirectiveParagraphs(ctx, d, st, PS.AsWritten).events
        == c.events + BehaviorParagraphs(ctx, ctx.errorBehavior.value, d, c.state).events
    ensures ctx.generateHtml(ctx.errorBehavior.value, d) != [] ==>
      DirectiveParagraphs(ctx, d, st, PS.AsWritten) != DirectiveParagraphs(ctx, d, st, PS.Corrected)
  {
  }

  /** For a directive nobody resolves, both agree. */
  lemma UnresolvedAgree(ctx: Context, d: Content, st: ParagraphsState)
    requires d.DirectiveNode? && NodeWithin(d, ctx.source) && ctx.Resolve(d).None?
    ensures DirectiveParagraphs(ctx, d, st, PS.AsWritten) == DirectiveParagraphs(ctx, d, st, PS.Corrected)
  {
  }
}
