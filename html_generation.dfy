/*
 * HTML generation without paragraphs, src/main/cpp/directive_processing.cpp:
 * the `to_html` overloads for one node, `to_html_direct`,
 * `to_html_trimmed`, `to_html_literally` and `try_generate_error_html`.
 * A behaviour's `generate_html` is the context's `generateHtml`.
 *
 * A failed `MMML_ASSERT` ends the program; `to_html_trimmed` asserts that
 * no text it writes is empty, and its outcome records whether that
 * assertion failed, with what was written before.
 */
module HtmlGeneration {
  import opened Chars
  import opened Options
  import opened Ast
  import opened Directives
  import opened HtmlWriters
  import opened ProcessingModes
  import opened ContentTrimming

  /** What `try_generate_error_html` writes. */
  function ErrorHtmlOf(ctx: Context, d: Content): seq<HtmlEvent>
  {
    if ctx.errorBehavior.Some? then ctx.generateHtml(ctx.errorBehavior.value, d) else []
  }

  /** `to_html(out, directive, context)`: the behaviour's HTML, or the error
    * behaviour's for a name nobody resolves; nothing when there is neither. */
  function DirectiveHtml(ctx: Context, d: Content): (r: seq<HtmlEvent>)
    requires d.DirectiveNode? && NodeWithin(d, ctx.source)
    ensures ctx.Resolve(d).None? && ctx.errorBehavior.None? ==> r == []
  {
    match ctx.Resolve(d)
    case Some(b) => ctx.generateHtml(b, d)
    case None => ErrorHtmlOf(ctx, d)
  }

  /** `to_html(out, content, context)` of one node: every node but a
    * directive is one event, inner text for text and escapes. */
  function ContentHtml(ctx: Context, c: Content): (r: seq<HtmlEvent>)
    requires NodeWithin(c, ctx.source)
    ensures !c.DirectiveNode? ==> |r| == 1
    ensures c.TextNode? || c.EscapedNode? ==> r[0].InnerText?
  {
    match c
    case TextNode(pos) => [InnerText(SpanSource(pos, ctx.source))]
    case EscapedNode(_) => [InnerText([EscapedChar(c, ctx.source)])]
    case GeneratedNode(data, kind, _) => if kind == Plaintext then [InnerText(data)] else [InnerHtml(data)]
    case DirectiveNode(_, _, _, _) => DirectiveHtml(ctx, c)
  }

  /** `to_html_direct`: each node's HTML in order; content ending in a
    * node other than a directive writes something. */
  function DirectHtml(ctx: Context, cs: seq<Content>): (r: seq<HtmlEvent>)
    requires NodesWithin(cs, ctx.source)
    ensures cs != [] && !cs[|cs| - 1].DirectiveNode? ==> r != []
  {
    if cs == [] then [] else DirectHtml(ctx, cs[..|cs| - 1]) + ContentHtml(ctx, cs[|cs| - 1])
  }

  /** Content without directives writes one event per node. */
  lemma {:induction false} DirectHtmlOnePerNode(ctx: Context, cs: seq<Content>)
    requires NodesWithin(cs, ctx.source) && forall k | 0 <= k < |cs| :: !cs[k].DirectiveNode?
    ensures |DirectHtml(ctx, cs)| == |cs|
    decreases |cs|
  {
    if cs != [] {
      var n := |cs| - 1;
      NodesWithinPrefix(cs, ctx.source, n);
      assert forall k | 0 <= k < n :: cs[..n][k] == cs[k];
      DirectHtmlOnePerNode(ctx, cs[..n]);
    }
  }

  /** `try_generate_error_html`. */
  method TryGenerateErrorHtml(out: HtmlWriter, ctx: Context, d: Content)
    modifies out
    ensures out.events == old(out.events) + ErrorHtmlOf(ctx, d)
  {
    if ctx.errorBehavior.Some? {
      var eb := ctx.errorBehavior.value;
      out.events := out.events + ctx.generateHtml(eb, d);
    }
  }

  /** `to_html` of a directive. */
  method ToHtmlDirective(out: HtmlWriter, ctx: Context, d: Content)
    requires d.DirectiveNode? && NodeWithin(d, ctx.source)
    modifies out
    ensures out.events == old(out.events) + DirectiveHtml(ctx, d)
  {
    var behavior := ctx.FindDirectiveOf(d);
    if behavior.Some? {
      out.events := out.events + ctx.generateHtml(behavior.value, d);
      return;
    }
    TryGenerateErrorHtml(out, ctx, d);
  }

  /** `to_html` of one node. */
  method ToHtmlContent(out: HtmlWriter, ctx: Context, c: Content)
    requires NodeWithin(c, ctx.source)
    modifies out
    ensures out.events == old(out.events) + ContentHtml(ctx, c)
  {
    match c
    case TextNode(pos) => out.WriteInnerText(SpanSource(pos, ctx.source));
    case EscapedNode(_) => out.WriteInnerText([EscapedChar(c, ctx.source)]);
    case GeneratedNode(data, kind, _) =>
      if kind == Plaintext {
        out.WriteInnerText(data);
      } else {
        out.WriteInnerHtml(data);
      }
    case DirectiveNode(_, _, _, _) => ToHtmlDirective(out, ctx, c);
  }

  /** `to_html_direct`. */
  method ToHtmlDirect(out: HtmlWriter, ctx: Context, cs: seq<Content>)
    requires NodesWithin(cs, ctx.source)
    modifies out
    ensures out.events == old(out.events) + DirectHtml(ctx, cs)
  {
    for k := 0 to |cs|
      invariant (NodesWithinPrefix(cs, ctx.source, k); out.events == old(out.events) + DirectHtml(ctx, cs[..k]))
    {
      ToHtmlDirectNext(out, ctx, cs, k, old(out.events));
    }
    assert cs[..|cs|] == cs;
  }

  /** One turn of the loop of `to_html_direct`: node `k` after the first `k`. */
  method ToHtmlDirectNext(out: HtmlWriter, ctx: Context, cs: seq<Content>, k: nat, ghost prior: seq<HtmlEvent>)
    requires NodesWithin(cs, ctx.source) && k < |cs|
    requires (NodesWithinPrefix(cs, ctx.source, k); out.events == prior + DirectHtml(ctx, cs[..k]))
    modifies out
    ensures (NodesWithinPrefix(cs, ctx.source, k + 1); out.events == prior + DirectHtml(ctx, cs[..k + 1]))
  {
    DirectStep(ctx, cs, k);
    ToHtmlContent(out, ctx, cs[k]);
  }

  /** One more node adds its HTML at the end. */
  lemma DirectStep(ctx: Context, cs: seq<Content>, k: nat)
    requires NodesWithin(cs, ctx.source) && k < |cs|
    ensures (NodesWithinPrefix(cs, ctx.source, k); NodesWithinPrefix(cs, ctx.source, k + 1);
      DirectHtml(ctx, cs[..k + 1]) == DirectHtml(ctx, cs[..k]) + ContentHtml(ctx, cs[k]))
  {
    NodesWithinPrefix(cs, ctx.source, k);
    NodesWithinPrefix(cs, ctx.source, k + 1);
    assert cs[..k + 1][..k] == cs[..k];
    assert cs[..k + 1][k] == cs[k];
  }

  // ---------------------------------------------------------------------
  // `to_html_trimmed`.

  /** What was written, and whether an assertion ended the program. */
  datatype Outcome = Outcome(events: seq<HtmlEvent>, crashed: bool)

  /** The text of node `i` of `n` in the trimmed mode: the first is trimmed
    * on the left, the last on the right. */
  function TrimEnds(s: seq<byte>, i: nat, n: nat): seq<byte>
  {
    var l := if i == 0 then TrimAsciiBlankLeft(s) else s;
    if i + 1 == n then TrimAsciiBlankRight(l) else l
  }

  /** What the visitor writes for node `i` of `cs`, or `None` when the text
    * it would write is empty, which it asserts cannot happen. */
  function TrimmedNodeHtml(ctx: Context, cs: seq<Content>, i: nat): Option<seq<HtmlEvent>>
    requires i < |cs| && NodeWithin(cs[i], ctx.source)
  {
    match cs[i]
    case TextNode(pos) =>
      var s := TrimEnds(SpanSource(pos, ctx.source), i, |cs|);
      if s == [] then None else Some([InnerText(s)])
    case GeneratedNode(data, _, _) =>
      var s := TrimEnds(data, i, |cs|);
      if s == [] then None else Some([InnerHtml(s)])
    case EscapedNode(_) => Some([InnerHtml([EscapedChar(cs[i], ctx.source)])])
    case DirectiveNode(_, _, _, _) => Some(DirectiveHtml(ctx, cs[i]))
  }

  /** The first `n` nodes of `cs` in the trimmed mode. */
  function TrimmedHtmlUpTo(ctx: Context, cs: seq<Content>, n: nat): Outcome
    requires n <= |cs| && NodesWithin(cs, ctx.source)
  {
    if n == 0 then Outcome([], false)
    else
      var o := TrimmedHtmlUpTo(ctx, cs, n - 1);
      if o.crashed then o
      else match TrimmedNodeHtml(ctx, cs, n - 1)
        case None => Outcome(o.events, true)
        case Some(e) => Outcome(o.events + e, false)
  }

  /** `to_html_trimmed`: its assertion fails exactly when the trimmed text
    * of some node is empty. */
  function TrimmedHtml(ctx: Context, cs: seq<Content>): (r: Outcome)
    requires NodesWithin(cs, ctx.source)
    ensures r.crashed <==> exists k | 0 <= k < |cs| :: TrimmedNodeHtml(ctx, cs, k).None?
  {
    TrimmedCrashes(ctx, cs, |cs|);
    TrimmedHtmlUpTo(ctx, cs, |cs|)
  }

  /** The first `n` nodes fail the assertion exactly when one of them has
    * an empty trimmed text. */
  lemma {:induction false} TrimmedCrashes(ctx: Context, cs: seq<Content>, n: nat)
    requires n <= |cs| && NodesWithin(cs, ctx.source)
    ensures TrimmedHtmlUpTo(ctx, cs, n).crashed <==> exists k | 0 <= k < n :: TrimmedNodeHtml(ctx, cs, k).None?
  {
    if n > 0 {
      TrimmedCrashes(ctx, cs, n - 1);
    }
  }

  /** What the visitor writes for node `i` when its assertion holds. */
  method WriteTrimmedNode(out: HtmlWriter, ctx: Context, cs: seq<Content>, i: nat)
    requires i < |cs| && NodeWithin(cs[i], ctx.source) && TrimmedNodeHtml(ctx, cs, i).Some?
    modifies out
    ensures out.events == old(out.events) + TrimmedNodeHtml(ctx, cs, i).value
  {
    match cs[i]
    case TextNode(pos) => out.WriteInnerText(TrimEnds(SpanSource(pos, ctx.source), i, |cs|));
    case GeneratedNode(data, _, _) => out.WriteInnerHtml(TrimEnds(data, i, |cs|));
    case EscapedNode(_) => out.WriteInnerHtml([EscapedChar(cs[i], ctx.source)]);
    case DirectiveNode(_, _, _, _) => ToHtmlDirective(out, ctx, cs[i]);
  }

  /** `to_html_trimmed`; `crashed` tells the assertion failed. */
  method ToHtmlTrimmed(out: HtmlWriter, ctx: Context, cs: seq<Content>) returns (crashed: bool)
    requires NodesWithin(cs, ctx.source)
    modifies out
    ensures out.events == old(out.events) + TrimmedHtml(ctx, cs).events
    ensures crashed == TrimmedHtml(ctx, cs).crashed
  {
    for i := 0 to |cs|
      invariant out.events == old(out.events) + TrimmedHtmlUpTo(ctx, cs, i).events
      invariant !TrimmedHtmlUpTo(ctx, cs, i).crashed
    {
      var stop := WriteTrimmedNext(out, ctx, cs, i, old(out.events));
      if stop {
        return true;
      }
    }
    return false;
  }

  /** One turn of the visitor's loop: node `i` is written, or the
    * assertion fails and the outcome is final. */
  method WriteTrimmedNext(out: HtmlWriter, ctx: Context, cs: seq<Content>, i: nat, ghost base: seq<HtmlEvent>)
    returns (stop: bool)
    requires i < |cs| && NodesWithin(cs, ctx.source)
    requires !TrimmedHtmlUpTo(ctx, cs, i).crashed && out.events == base + TrimmedHtmlUpTo(ctx, cs, i).events
    modifies out
    ensures stop ==> out.events == base + TrimmedHtml(ctx, cs).events && TrimmedHtml(ctx, cs).crashed
    ensures !stop ==> out.events == base + TrimmedHtmlUpTo(ctx, cs, i + 1).events && !TrimmedHtmlUpTo(ctx, cs, i + 1).crashed
  {
    ghost var o := TrimmedHtmlUpTo(ctx, cs, i);
    var e := TrimmedNodeHtml(ctx, cs, i);
    if e.None? {
      CrashEndsTrimmed(ctx, cs, i, o);
      return true;
    }
    WriteTrimmedNode(out, ctx, cs, i);
    TrimmedStep(ctx, cs, i, o, e.value, TrimmedHtmlUpTo(ctx, cs, i + 1));
    return false;
  }

  /** A node the assertion stops at ends the output. */
  lemma CrashEndsTrimmed(ctx: Context, cs: seq<Content>, i: nat, o: Outcome)
    requires i < |cs| && NodesWithin(cs, ctx.source)
    requires o == TrimmedHtmlUpTo(ctx, cs, i) && !o.crashed && TrimmedNodeHtml(ctx, cs, i).None?
    ensures TrimmedHtml(ctx, cs) == Outcome(o.events, true)
  {
    CrashIsFinal(ctx, cs, i + 1, |cs|);
  }

  /** A node the assertion lets through appends what it writes. */
  lemma TrimmedStep(ctx: Context, cs: seq<Content>, i: nat, o: Outcome, e: seq<HtmlEvent>, r: Outcome)
    requires i < |cs| && NodesWithin(cs, ctx.source)
    requires o == TrimmedHtmlUpTo(ctx, cs, i) && !o.crashed && TrimmedNodeHtml(ctx, cs, i) == Some(e)
    requires r == TrimmedHtmlUpTo(ctx, cs, i + 1)
    ensures r == Outcome(o.events + e, false)
  {
  }

  /** A string with a byte that is not blank keeps it under any trimming. */
  lemma NonBlankSurvivesTrim(s: seq<byte>, i: nat, n: nat)
    requires !BlankBetween(s, 0, |s|)
    ensures TrimEnds(s, i, n) != []
  {
    var f := FirstNonBlank(s, 0);
    var l := TrimAsciiBlankLeft(s);
    assert l == s[f..] && l != [] && !IsAsciiBlank(l[0] as int);
  }

  /** Once the assertion has failed, nothing more is written. */
  lemma {:induction false} CrashIsFinal(ctx: Context, cs: seq<Content>, i: nat, n: nat)
    requires 0 < i <= n <= |cs| && NodesWithin(cs, ctx.source)
    requires !TrimmedHtmlUpTo(ctx, cs, i - 1).crashed && TrimmedNodeHtml(ctx, cs, i - 1).None?
    ensures TrimmedHtmlUpTo(ctx, cs, n) == Outcome(TrimmedHtmlUpTo(ctx, cs, i - 1).events, true)
    decreases n
  {
    if n > i {
      CrashIsFinal(ctx, cs, i, n - 1);
    }
  }

  /** Once `trim_blank_text` has run, the trimmed mode's assertion holds for
    * every content whose texts and generated strings are not empty (a
    * hypothesis: how the AST is built from the parser's instructions is not
    * modelled): the first and last nodes are not blank, so trimming leaves
    * something of them. */
  lemma TrimmedAfterTrimDoesNotCrash(ctx: Context, cs: seq<Content>)
    requires NodesWithin(cs, ctx.source)
    requires forall k | 0 <= k < |cs| :: cs[k].TextNode? ==> cs[k].pos.length != 0
    requires forall k | 0 <= k < |cs| :: cs[k].GeneratedNode? ==> cs[k].data != []
    ensures var r := TrimBlankText(cs, ctx.source);
      NodesWithin(r, ctx.source) && !TrimmedHtml(ctx, r).crashed
  {
    TrimBlankTextIsSlice(cs, ctx.source);
    var r := TrimBlankText(cs, ctx.source);
    var b := |cs| - |TrimBlankTextLeft(cs, ctx.source)|;
    forall i | 0 <= i < |r|
      ensures TrimmedNodeHtml(ctx, r, i).Some?
    {
      assert r[i] == cs[b + i];
      TrimmedNodeSome(ctx, r, i);
    }
    TrimmedUpToDoesNotCrash(ctx, r, |r|);
  }

  lemma TrimmedNodeSome(ctx: Context, r: seq<Content>, i: nat)
    requires i < |r| && NodesWithin(r, ctx.source)
    requires r[i].TextNode? ==> r[i].pos.length != 0
    requires r[i].GeneratedNode? ==> r[i].data != []
    requires i == 0 || i + 1 == |r| ==> !IsBlankText(r[i], ctx.source)
    ensures TrimmedNodeHtml(ctx, r, i).Some?
  {
    var s := if r[i].TextNode? then SpanSource(r[i].pos, ctx.source)
             else if r[i].GeneratedNode? then r[i].data else [];
    if r[i].TextNode? || r[i].GeneratedNode? {
      if i == 0 || i + 1 == |r| {
        NonBlankSurvivesTrim(s, i, |r|);
      } else {
        assert TrimEnds(s, i, |r|) == s;
      }
    }
  }

  lemma {:induction false} TrimmedUpToDoesNotCrash(ctx: Context, r: seq<Content>, n: nat)
    requires n <= |r| && NodesWithin(r, ctx.source)
    requires forall i | 0 <= i < |r| :: TrimmedNodeHtml(ctx, r, i).Some?
    ensures !TrimmedHtmlUpTo(ctx, r, n).crashed
  {
    if n > 0 {
      TrimmedUpToDoesNotCrash(ctx, r, n - 1);
    }
  }

  /** When nothing is trimmed away and no assertion fails, the trimmed mode
    * writes the same as the direct mode, except that escapes go out as
    * HTML: a node in the middle is written as it is. */
  lemma TrimmedMiddleIsDirect(ctx: Context, cs: seq<Content>, i: nat)
    requires 0 < i && i + 1 < |cs| && NodesWithin(cs, ctx.source)
    requires cs[i].TextNode? && cs[i].pos.length != 0
    ensures TrimmedNodeHtml(ctx, cs, i) == Some(ContentHtml(ctx, cs[i]))
  {
  }

  // ---------------------------------------------------------------------
  // `to_html_literally`.

  /** What `to_html_literally` writes for one node other than a generated
    * one: text and escaped characters as HTML, a directive as the text of
    * its source. */
  function LiteralNodeHtml(ctx: Context, c: Content): seq<HtmlEvent>
    requires NodeWithin(c, ctx.source) && !c.GeneratedNode?
  {
    match c
    case EscapedNode(_) => [InnerHtml([EscapedChar(c, ctx.source)])]
    case TextNode(pos) => [InnerHtml(SpanSource(pos, ctx.source))]
    case DirectiveNode(pos, _, _, _) => [InnerText(SpanSource(pos, ctx.source))]
  }

  /** `to_html_literally`; it asserts that no node is generated. */
  function LiteralHtml(ctx: Context, cs: seq<Content>): (r: seq<HtmlEvent>)
    requires NodesWithin(cs, ctx.source) && forall k | 0 <= k < |cs| :: !cs[k].GeneratedNode?
    ensures |r| == |cs|
  {
    if cs == [] then []
    else LiteralHtml(ctx, cs[..|cs| - 1]) + LiteralNodeHtml(ctx, cs[|cs| - 1])
  }

  method ToHtmlLiterally(out: HtmlWriter, ctx: Context, cs: seq<Content>)
    requires NodesWithin(cs, ctx.source) && forall k | 0 <= k < |cs| :: !cs[k].GeneratedNode?
    modifies out
    ensures out.events == old(out.events) + LiteralHtml(ctx, cs)
  {
    for k := 0 to |cs|
      invariant (LiteralPrefix(ctx, cs, k); out.events == old(out.events) + LiteralHtml(ctx, cs[..k]))
    {
      LiteralStep(ctx, cs, k);
      match cs[k]
      case EscapedNode(_) => out.WriteInnerHtml([EscapedChar(cs[k], ctx.source)]);
      case TextNode(pos) => out.WriteInnerHtml(SpanSource(pos, ctx.source));
      case DirectiveNode(pos, _, _, _) => out.WriteInnerText(SpanSource(pos, ctx.source));
    }
    assert cs[..|cs|] == cs;
  }

  lemma LiteralPrefix(ctx: Context, cs: seq<Content>, k: nat)
    requires NodesWithin(cs, ctx.source) && forall j | 0 <= j < |cs| :: !cs[j].GeneratedNode?
    requires k <= |cs|
    ensures NodesWithin(cs[..k], ctx.source) && forall j | 0 <= j < k :: !cs[..k][j].GeneratedNode?
  {
    NodesWithinPrefix(cs, ctx.source, k);
  }

  /** One more node adds its literal HTML at the end. */
  lemma LiteralStep(ctx: Context, cs: seq<Content>, k: nat)
    requires NodesWithin(cs, ctx.source) && forall j | 0 <= j < |cs| :: !cs[j].GeneratedNode?
    requires k < |cs|
    ensures (LiteralPrefix(ctx, cs, k); LiteralPrefix(ctx, cs, k + 1);
      LiteralHtml(ctx, cs[..k + 1]) == LiteralHtml(ctx, cs[..k]) + LiteralNodeHtml(ctx, cs[k]))
  {
    LiteralPrefix(ctx, cs, k);
    LiteralPrefix(ctx, cs, k + 1);
    assert cs[..k + 1][..k] == cs[..k];
    assert cs[..k + 1][k] == cs[k];
  }

  /** The literal HTML does not depend on any behaviour: it is the same in
    * every context with the same source. */
  lemma {:induction false} LiteralHtmlIgnoresBehaviours(ctx: Context, other: Context, cs: seq<Content>)
    requires ctx.source == other.source
    requires NodesWithin(cs, ctx.source) && forall k | 0 <= k < |cs| :: !cs[k].GeneratedNode?
    ensures LiteralHtml(ctx, cs) == LiteralHtml(other, cs)
    decreases |cs|
  {
    if cs != [] {
      NodesWithinPrefix(cs, ctx.source, |cs| - 1);
      LiteralHtmlIgnoresBehaviours(ctx, other, cs[..|cs| - 1]);
    }
  }
}
