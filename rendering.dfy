/*
 * `to_html(out, content, context, mode, paragraphs_state)` of
 * src/main/cpp/directive_processing.cpp: the dispatcher over the four
 * `To_HTML_Mode`s.  A trimmed mode first cuts the blank text off both ends
 * of the content; then the direct, trimmed or paragraph-splitting writer
 * runs.  `PS.Revision` is passed on to the paragraph-splitting visitor.
 */
module HtmlRendering {
  import opened Options
  import opened Ast
  import opened Directives
  import opened HtmlWriters
  import opened ProcessingModes
  import opened ContentTrimming
  import opened HtmlGeneration
  import opened HtmlParagraphs
  import PS = ParseSpec

  /** The content the writer of `mode` is given: trimmed in a trimmed mode. */
  function ModeContent(ctx: Context, cs: seq<Content>, mode: HtmlMode): (r: seq<Content>)
    requires NodesWithin(cs, ctx.source)
    ensures NodesWithin(r, ctx.source)
  {
    if IsTrimmed(mode) then
      TrimBlankTextIsSlice(cs, ctx.source);
      TrimBlankText(cs, ctx.source)
    else cs
  }

  /** What `to_html` writes in `mode`, and whether the trimmed writer's
    * assertion ended the program. */
  function RenderedHtml(ctx: Context, cs: seq<Content>, mode: HtmlMode, st: ParagraphsState, rev: PS.Revision): (o: Outcome)
    requires NodesWithin(cs, ctx.source)
    ensures o.crashed ==> mode == Trimmed
  {
    var c := ModeContent(ctx, cs, mode);
    match mode
    case Direct => Outcome(DirectHtml(ctx, c), false)
    case Trimmed => TrimmedHtml(ctx, c)
    case Paragraphs => Outcome(ParagraphsHtml(ctx, c, false, st, rev).events, false)
    case ParagraphsTrimmed => Outcome(ParagraphsHtml(ctx, c, true, st, rev).events, false)
  }

  /** `to_html`; `crashed` tells the trimmed writer's assertion failed. */
  method ToHtml(out: HtmlWriter, ctx: Context, cs: seq<Content>, mode: HtmlMode, st: ParagraphsState, rev: PS.Revision)
    returns (crashed: bool)
    requires NodesWithin(cs, ctx.source)
    modifies out
    ensures out.events == old(out.events) + RenderedHtml(ctx, cs, mode, st, rev).events
    ensures crashed == RenderedHtml(ctx, cs, mode, st, rev).crashed
  {
    var content := cs;
    if IsTrimmed(mode) {
      TrimBlankTextIsSlice(cs, ctx.source);
      content := TrimBlankText(cs, ctx.source);
    }
    assert content == ModeContent(ctx, cs, mode);
    crashed := false;
    match mode
    case Direct =>
      ToHtmlDirect(out, ctx, content);
    case Trimmed =>
      crashed := ToHtmlTrimmed(out, ctx, content);
    case Paragraphs =>
      var impl := new ParagraphsWriter(out, ctx, st, rev);
      impl.WriteAll(content, false);
    case ParagraphsTrimmed =>
      var impl := new ParagraphsWriter(out, ctx, st, rev);
      impl.WriteAll(content, true);
  }

  // ---------------------------------------------------------------------
  // Properties.

  /** The trimmed writer asserts that no text it writes is empty; the
    * dispatcher's trimming makes that hold in every mode for content whose
    * texts and generated strings are not empty, which this lemma takes as
    * a hypothesis. */
  lemma RenderingDoesNotCrash(ctx: Context, cs: seq<Content>, mode: HtmlMode, st: ParagraphsState, rev: PS.Revision)
    requires NodesWithin(cs, ctx.source)
    requires forall k | 0 <= k < |cs| :: cs[k].TextNode? ==> cs[k].pos.length != 0
    requires forall k | 0 <= k < |cs| :: cs[k].GeneratedNode? ==> cs[k].data != []
    ensures !RenderedHtml(ctx, cs, mode, st, rev).crashed
  {
    if mode == Trimmed {
      TrimmedAfterTrimDoesNotCrash(ctx, cs);
    }
  }

  /** In a paragraphs mode, when the behaviours write no `p` tags of their
    * own, the `<p>` and `</p>` written alternate from the given state and
    * leave no paragraph open. */
  lemma ParagraphModesBalance(ctx: Context, cs: seq<Content>, mode: HtmlMode, st: ParagraphsState, rev: PS.Revision)
    requires NodesWithin(cs, ctx.source) && IsParagraphed(mode) && BehaviorsWriteNoParagraphs(ctx)
    ensures Alternates(TagEvents(RenderedHtml(ctx, cs, mode, st, rev).events, P), st, Outside)
  {
    ParagraphsBalanced(ctx, ModeContent(ctx, cs, mode), mode == ParagraphsTrimmed, st, rev);
  }

  /** The direct and trimmed modes write no paragraphs: when the behaviours
    * write no `p` tag, neither does the output. */
  lemma OtherModesWriteNoParagraphs(ctx: Context, cs: seq<Content>, mode: HtmlMode, st: ParagraphsState, rev: PS.Revision)
    requires NodesWithin(cs, ctx.source) && !IsParagraphed(mode) && BehaviorsWriteNoParagraphs(ctx)
    ensures TagEvents(RenderedHtml(ctx, cs, mode, st, rev).events, P) == []
  {
    var c := ModeContent(ctx, cs, mode);
    if mode == Direct {
      DirectWritesNoParagraphs(ctx, c);
    } else {
      TrimmedWritesNoParagraphs(ctx, c, |c|);
    }
  }

  lemma NodeWritesNoParagraphs(ctx: Context, c: Content)
    requires NodeWithin(c, ctx.source) && BehaviorsWriteNoParagraphs(ctx)
    ensures TagEvents(ContentHtml(ctx, c), P) == []
  {
    var h := ContentHtml(ctx, c);
    if c.DirectiveNode? {
      var b := ctx.Resolve(c);
      if b.Some? {
        assert TagEvents(ctx.generateHtml(b.value, c), P) == [];
      } else if ctx.errorBehavior.Some? {
        assert TagEvents(ctx.generateHtml(ctx.errorBehavior.value, c), P) == [];
      } else {
        assert h == [];
      }
    } else {
      assert h[..0] == [];
    }
  }

  lemma {:induction false} DirectWritesNoParagraphs(ctx: Context, cs: seq<Content>)
    requires NodesWithin(cs, ctx.source) && BehaviorsWriteNoParagraphs(ctx)
    ensures TagEvents(DirectHtml(ctx, cs), P) == []
    decreases |cs|
  {
    if cs != [] {
      var n := |cs| - 1;
      NodesWithinPrefix(cs, ctx.source, n);
      DirectWritesNoParagraphs(ctx, cs[..n]);
      NodeWritesNoParagraphs(ctx, cs[n]);
      TagEventsConcat(DirectHtml(ctx, cs[..n]), ContentHtml(ctx, cs[n]), P);
    }
  }

  lemma TrimmedWritesNoParagraphs(ctx: Context, cs: seq<Content>, n: nat)
    requires n <= |cs| && NodesWithin(cs, ctx.source) && BehaviorsWriteNoParagraphs(ctx)
    ensures TagEvents(TrimmedHtmlUpTo(ctx, cs, n).events, P) == []
  {
    TrimmedOutcomeNoParagraphs(ctx, cs, n, TrimmedHtmlUpTo(ctx, cs, n));
  }

  lemma {:induction false} TrimmedOutcomeNoParagraphs(ctx: Context, cs: seq<Content>, n: nat, w: Outcome)
    requires n <= |cs| && NodesWithin(cs, ctx.source) && BehaviorsWriteNoParagraphs(ctx)
    requires w == TrimmedHtmlUpTo(ctx, cs, n)
    ensures TagEvents(w.events, P) == []
  {
    if n > 0 {
      var o := TrimmedHtmlUpTo(ctx, cs, n - 1);
      TrimmedOutcomeNoParagraphs(ctx, cs, n - 1, o);
      assert NodeWithin(cs[n - 1], ctx.source);
      var e := TrimmedNodeHtml(ctx, cs, n - 1);
      if !o.crashed && e.Some? {
        assert w.events == o.events + e.value;
        TrimmedNodeWritesNoParagraphs(ctx, cs, n - 1, e.value);
        TagEventsConcat(o.events, e.value, P);
      } else {
        assert w.events == o.events;
      }
    }
  }

  lemma TrimmedNodeWritesNoParagraphs(ctx: Context, cs: seq<Content>, i: nat, e: seq<HtmlEvent>)
    requires i < |cs| && NodeWithin(cs[i], ctx.source) && BehaviorsWriteNoParagraphs(ctx)
    requires TrimmedNodeHtml(ctx, cs, i) == Some(e)
    ensures TagEvents(e, P) == []
  {
    if cs[i].DirectiveNode? {
      NodeWritesNoParagraphs(ctx, cs[i]);
      assert e == ContentHtml(ctx, cs[i]);
    } else {
      assert e[..0] == [];
    }
  }

  /** Trimming is idempotent, so content already trimmed renders in a
    * trimmed mode as the untrimmed content does. */
  lemma PretrimmedRendersAlike(ctx: Context, cs: seq<Content>, mode: HtmlMode, st: ParagraphsState, rev: PS.Revision)
    requires NodesWithin(cs, ctx.source) && IsTrimmed(mode)
    ensures var t := TrimBlankText(cs, ctx.source);
      NodesWithin(t, ctx.source) && RenderedHtml(ctx, t, mode, st, rev) == RenderedHtml(ctx, cs, mode, st, rev)
  {
    TrimBlankTextIdempotent(cs, ctx.source);
  }
}
