/*
 * Syntax highlighting of content, src/main/cpp/directive_processing.cpp:
 * `Highlighted_AST_Copier`, `copy_highlighted` and
 * `to_html_syntax_highlighted`.  The content's highlightable plaintext is
 * computed with its source mapping, handed to the highlighter, and every
 * highlighted byte is looked up in a table of spans; the copier then
 * replaces text, escapes and `pure_plaintext` directives by generated HTML
 * snippets, one per run of bytes under the same span, recursing into
 * `formatting` directives, and the copy is rendered.
 *
 * A pointer to a highlight span is modelled by the span's position in the
 * highlighter's output together with its type.  µlight's short name of a
 * highlight type and the bytes an `HTML_Writer` produces for a sequence of
 * calls are foreign; they are the parameters `shortName` and `serialize`.
 */
module HighlightCopy {
  import opened Chars
  import opened Options
  import opened DirectiveKinds
  import opened Ast
  import opened Directives
  import opened HtmlWriters
  import opened ProcessingModes
  import opened Highlight
  import opened HighlightMapping
  import opened HtmlGeneration
  import opened HtmlRendering
  import opened Services
  import R = Results
  import HP = HtmlParagraphs
  import PS = ParseSpec

  /** `highlighting_tag`. */
  const H_TAG: seq<byte> := "h-"

  /** The attribute holding the highlight type's short name. */
  const DATA_H: seq<byte> := "data-h"

  /** A `const Highlight_Span*`: which span, and the type it carries. */
  datatype SpanRef = SpanRef(id: nat, kind: HighlightType)

  /** What the copier reads: the highlighted plaintext, each of its bytes'
    * index in the document source, and each of its bytes' span. */
  datatype Tables = Tables(
    text: seq<byte>,
    toSource: seq<nat>,
    toSpan: seq<Option<SpanRef>>,
    shortName: HighlightType -> seq<byte>,
    serialize: seq<HtmlEvent> -> seq<byte>)
  {
    /** The sizes `copy_highlighted` asserts to agree. */
    predicate Consistent()
    {
      |toSource| == |text| && |toSpan| == |text|
    }
  }

  /** The bytes `[begin, end)` of the highlighted plaintext, under `span`. */
  datatype Snippet = Snippet(begin: nat, end: nat, span: Option<SpanRef>)

  /** Where the copier is after a node: what it appended and its index. */
  datatype Copied = Copied(out: seq<Content>, index: nat)

  // ---------------------------------------------------------------------
  // `append_highlighted_text_in`.

  /** The inner loop: from `j`, the first index that is mapped at or past
    * `end` or that is under another span than `current`. */
  function RunEnd(t: Tables, j: nat, end: nat, current: Option<SpanRef>): (r: nat)
    requires t.Consistent() && j <= |t.text|
    ensures j <= r <= |t.text|
    decreases |t.text| - j
  {
    if j < |t.text| && t.toSource[j] < end && t.toSpan[j] == current then RunEnd(t, j + 1, end, current) else j
  }

  /** The outer loop from index `i`: the snippets cut for the source span
    * `s`, and the index it stops at. */
  function Snippets(t: Tables, i: nat, s: Ast.Span): (r: (seq<Snippet>, nat))
    requires t.Consistent() && i <= |t.text|
    ensures i <= r.1 <= |t.text|
    decreases |t.text| - i
  {
    if i == |t.text| then ([], i)
    else if t.toSource[i] < s.begin then Snippets(t, i + 1, s)
    else if t.toSource[i] >= s.End() then ([], i)
    else
      var j := RunEnd(t, i + 1, s.End(), t.toSpan[i]);
      var rest := Snippets(t, j, s);
      ([Snippet(i, j, t.toSpan[i])] + rest.0, rest.1)
  }

  /** The calls `make_generated` makes on its writer for `text`. */
  function SnippetEvents(t: Tables, text: seq<byte>, span: Option<SpanRef>): seq<HtmlEvent>
  {
    match span
    case None => [InnerText(text)]
    case Some(r) =>
      [OpenTagWithAttributes(H_TAG), WriteAttribute(DATA_H, Some(t.shortName(r.kind)), DoubleIfNeeded),
       EndAttributes, InnerText(text), CloseTag(H_TAG)]
  }

  /** The generated in-line HTML node made for a snippet. */
  function SnippetNode(t: Tables, p: Snippet): Content
    requires p.begin <= p.end <= |t.text|
  {
    GeneratedNode(t.serialize(SnippetEvents(t, t.text[p.begin..p.end], p.span)), Html, InLine)
  }

  predicate SnippetsWithin(t: Tables, ps: seq<Snippet>)
  {
    forall k | 0 <= k < |ps| :: ps[k].begin <= ps[k].end <= |t.text|
  }

  function SnippetNodes(t: Tables, ps: seq<Snippet>): (r: seq<Content>)
    requires SnippetsWithin(t, ps)
    ensures |r| == |ps|
  {
    if ps == [] then [] else [SnippetNode(t, ps[0])] + SnippetNodes(t, ps[1..])
  }

  /** `append_highlighted_text_in(s)` from index `i`. */
  function TextIn(t: Tables, i: nat, s: Ast.Span): (r: Copied)
    requires t.Consistent() && i <= |t.text|
  {
    var p := Snippets(t, i, s);
    SnippetsBounded(t, i, s);
    Copied(SnippetNodes(t, p.0), p.1)
  }

  // ---------------------------------------------------------------------
  // The copy.

  /** Visiting one node from index `i`. */
  function CopyContent(t: Tables, ctx: Context, c: Content, i: nat): (r: Copied)
    requires t.Consistent() && i <= |t.text| && NodeWithin(c, ctx.source) && Reachable(ctx, c)
    ensures i <= r.index <= |t.text|
    decreases c, 1
  {
    match c
    case TextNode(pos) => TextIn(t, i, pos)
    case EscapedNode(pos) => TextIn(t, i, pos)
    case DirectiveNode(_, _, _, _) => CopyDirective(t, ctx, c, i)
  }

  /** Visiting a directive, by the category of its behaviour. */
  function CopyDirective(t: Tables, ctx: Context, d: Content, i: nat): (r: Copied)
    requires t.Consistent() && i <= |t.text| && d.DirectiveNode? && NodeWithin(d, ctx.source) && Reachable(ctx, d)
    ensures i <= r.index <= |t.text|
    decreases d, 0
  {
    match ctx.Resolve(d)
    case None => Copied([d], i)
    case Some(b) =>
      match b.category
      case PurePlaintext => TextIn(t, i, d.pos)
      case Formatting =>
        var inner := CopySequence(t, ctx, d.content, i);
        Copied([DirectiveNode(d.pos, d.nameLength, d.arguments, inner.out)], inner.index)
      case _ => Copied([d], i)
  }

  /** Visiting each node in turn, the index carried from one to the next. */
  function CopySequence(t: Tables, ctx: Context, cs: seq<Content>, i: nat): (r: Copied)
    requires t.Consistent() && i <= |t.text| && NodesWithin(cs, ctx.source) && AllReachable(ctx, cs)
    ensures i <= r.index <= |t.text|
    decreases cs, 2
  {
    if cs == [] then Copied([], i)
    else
      var n := |cs| - 1;
      NodesWithinPrefix(cs, ctx.source, n);
      assert AllReachable(ctx, cs[..n]) by {
        assert forall k | 0 <= k < n :: cs[..n][k] == cs[k];
      }
      var init := CopySequence(t, ctx, cs[..n], i);
      var last := CopyContent(t, ctx, cs[n], init.index);
      Copied(init.out + last.out, last.index)
  }

  /** `Highlighted_AST_Copier`: the vector it appends to, the tables it
    * reads and the index it has reached. */
  class Copier {
    const tables: Tables
    const ctx: Context
    var out: seq<Content>
    var index: nat

    constructor (tables: Tables, ctx: Context, index: nat)
      ensures this.tables == tables && this.ctx == ctx && this.index == index && out == []
    {
      this.tables := tables;
      this.ctx := ctx;
      this.index := index;
      out := [];
    }

    /** `make_generated`: the snippet's writer calls, serialised, as an
      * in-line HTML node. */
    method MakeGenerated(begin: nat, end: nat, span: Option<SpanRef>) returns (g: Content)
      requires begin <= end <= |tables.text|
      ensures g == SnippetNode(tables, Snippet(begin, end, span))
    {
      var w := new HtmlWriter();
      if span.Some? {
        w.OpenTagWithAttributes(H_TAG);
        w.WriteAttribute(DATA_H, tables.shortName(span.value.kind), DoubleIfNeeded);
        w.EndAttributes();
      }
      w.WriteInnerText(tables.text[begin..end]);
      if span.Some? {
        w.CloseTag(H_TAG);
      }
      assert w.events == SnippetEvents(tables, tables.text[begin..end], span);
      g := GeneratedNode(tables.serialize(w.events), Html, InLine);
    }

    /** `append_highlighted_text_in`. */
    method AppendHighlightedTextIn(s: Ast.Span)
      requires tables.Consistent() && index <= |tables.text|
      modifies this
      ensures out == old(out) + TextIn(tables, old(index), s).out
      ensures index == TextIn(tables, old(index), s).index
    {
      ghost var whole := TextIn(tables, index, s);
      var limit := |tables.toSource|;
      while index < limit
        invariant index <= |tables.text|
        invariant old(out) + whole.out == out + TextIn(tables, index, s).out
        invariant TextIn(tables, index, s).index == whole.index
        decreases limit - index
      {
        if tables.toSource[index] < s.begin {
          TextInSkips(tables, index, s);
          index := index + 1;
          continue;
        }
        if tables.toSource[index] >= s.End() {
          TextInStops(tables, index, s);
          break;
        }
        var current := tables.toSpan[index];
        var snippetBegin := index;
        index := index + 1;
        ghost var before := out;
        while index < limit && tables.toSource[index] < s.End()
          invariant snippetBegin < index <= limit && out == before
          invariant RunEnd(tables, index, s.End(), current) == RunEnd(tables, snippetBegin + 1, s.End(), current)
          decreases limit - index
        {
          if tables.toSpan[index] != current {
            break;
          }
          index := index + 1;
        }
        assert index == RunEnd(tables, snippetBegin + 1, s.End(), current);
        var g := MakeGenerated(snippetBegin, index, current);
        TextInCuts(tables, snippetBegin, s, index, g);
        ConcatAssoc(out, [g], TextIn(tables, index, s).out);
        out := out + [g];
      }
      if index == limit {
        TextInStops(tables, index, s);
      }
    }

    /** The visit of a directive. */
    method VisitDirective(d: Content)
      requires tables.Consistent() && index <= |tables.text|
      requires d.DirectiveNode? && NodeWithin(d, ctx.source) && Reachable(ctx, d)
      modifies this
      ensures out == old(out) + CopyDirective(tables, ctx, d, old(index)).out
      ensures index == CopyDirective(tables, ctx, d, old(index)).index
      decreases d, 0
    {
      var behavior := ctx.FindDirectiveOf(d);
      if behavior.None? {
        out := out + [d];
        return;
      }
      match behavior.value.category
      case PurePlaintext =>
        AppendHighlightedTextIn(d.pos);
      case Formatting =>
        var inner := new Copier(tables, ctx, index);
        inner.VisitAll(d.content);
        assert inner.out == CopySequence(tables, ctx, d.content, index).out;
        assert inner.index >= index;
        index := inner.index;
        out := out + [DirectiveNode(d.pos, d.nameLength, d.arguments, inner.out)];
      case _ =>
        out := out + [d];
    }

    /** `operator()` for any node; a generated node is asserted not to
      * occur. */
    method VisitContent(c: Content)
      requires tables.Consistent() && index <= |tables.text|
      requires NodeWithin(c, ctx.source) && Reachable(ctx, c)
      modifies this
      ensures out == old(out) + CopyContent(tables, ctx, c, old(index)).out
      ensures index == CopyContent(tables, ctx, c, old(index)).index
      decreases c, 1
    {
      match c
      case TextNode(pos) => AppendHighlightedTextIn(pos);
      case EscapedNode(pos) => AppendHighlightedTextIn(pos);
      case DirectiveNode(_, _, _, _) => VisitDirective(c);
    }

    /** `std::visit(copier, c)` for each `c` of `cs`. */
    method VisitAll(cs: seq<Content>)
      requires tables.Consistent() && index <= |tables.text|
      requires NodesWithin(cs, ctx.source) && AllReachable(ctx, cs)
      modifies this
      ensures out == old(out) + CopySequence(tables, ctx, cs, old(index)).out
      ensures index == CopySequence(tables, ctx, cs, old(index)).index
      decreases cs, 2
    {
      for k := 0 to |cs|
        invariant NodesWithin(cs[..k], ctx.source) && AllReachable(ctx, cs[..k])
        invariant out == old(out) + CopySequence(tables, ctx, cs[..k], old(index)).out
        invariant index == CopySequence(tables, ctx, cs[..k], old(index)).index
      {
        assert cs[..k + 1][..k] == cs[..k];
        assert forall j | 0 <= j < k + 1 :: cs[..k + 1][j] == cs[j];
        ConcatAssoc(old(out), CopySequence(tables, ctx, cs[..k], old(index)).out,
          CopyContent(tables, ctx, cs[k], index).out);
        VisitContent(cs[k]);
      }
      assert cs[..|cs|] == cs;
    }
  }

  /** `copy_highlighted`: a fresh copier from index 0 over `cs`. */
  method CopyHighlighted(t: Tables, ctx: Context, cs: seq<Content>) returns (r: seq<Content>)
    requires t.Consistent() && NodesWithin(cs, ctx.source) && AllReachable(ctx, cs)
    ensures r == CopySequence(t, ctx, cs, 0).out
  {
    var copier := new Copier(t, ctx, 0);
    copier.VisitAll(cs);
    r := copier.out;
  }

  // ---------------------------------------------------------------------
  // The span table.

  /** The span a byte at `x` is looked up under: the last one covering it. */
  function SpanAt(spans: seq<HighlightSpan>, x: nat): Option<SpanRef>
  {
    if spans == [] then None
    else
      var n := |spans| - 1;
      if spans[n].Covers(x) then Some(SpanRef(n, spans[n].value)) else SpanAt(spans[..n], x)
  }

  /** Every non-empty span lies within the `n` bytes highlighted; beyond it,
    * the table is written out of bounds. */
  predicate SpansWithin(spans: seq<HighlightSpan>, n: nat)
  {
    forall k | 0 <= k < |spans| :: spans[k].length > 0 ==> spans[k].End() <= n
  }

  /** The table `plaintext_to_span`, of `n` entries, null where no span
    * covers the byte.  `ok` is false when a span reaches past the end; the
    * table is then undefined. */
  method BuildSpanTable(spans: seq<HighlightSpan>, n: nat) returns (table: array<Option<SpanRef>>, ok: bool)
    ensures ok <==> SpansWithin(spans, n)
    ensures ok ==> table.Length == n && forall x | 0 <= x < n :: table[x] == SpanAt(spans, x)
  {
    table := new Option<SpanRef>[n](_ => None);
    for k := 0 to |spans|
      invariant SpansWithin(spans[..k], n)
      invariant forall x | 0 <= x < n :: table[x] == SpanAt(spans[..k], x)
    {
      var sp := spans[k];
      for i := 0 to sp.length
        invariant sp.begin + i <= n || i == 0
        invariant forall x | 0 <= x < n ::
          table[x] == if sp.begin <= x < sp.begin + i then Some(SpanRef(k, sp.value)) else SpanAt(spans[..k], x)
      {
        if i + sp.begin >= n {
          ok := false;
          assert !SpansWithin(spans, n) by {
            assert spans[k].length > 0 && spans[k].End() > n;
          }
          return;
        }
        table[i + sp.begin] := Some(SpanRef(k, sp.value));
      }
      assert spans[..k + 1][..k] == spans[..k];
      assert forall x | 0 <= x < n :: table[x] == SpanAt(spans[..k + 1], x);
      assert forall j | 0 <= j < k :: spans[..k + 1][j] == spans[..k][j];
    }
    assert spans[..|spans|] == spans;
    ok := true;
  }

  // ---------------------------------------------------------------------
  // `to_html_syntax_highlighted`.

  /** What `to_html_syntax_highlighted` returns and writes, and whether it
    * had undefined behaviour writing the span table. */
  datatype HighlightedHtml = HighlightedHtml(result: R.VoidResult<SyntaxHighlightError>, events: seq<HtmlEvent>, crashed: bool)

  /** The tables for the plaintext `m` and the spans produced for it. */
  function TablesFor(m: Mapped, spans: seq<HighlightSpan>, shortName: HighlightType -> seq<byte>,
                     serialize: seq<HtmlEvent> -> seq<byte>): (t: Tables)
    requires |m.text| == |m.mapping|
    ensures t.Consistent()
  {
    Tables(m.text, m.mapping, seq(|m.text|, x requires 0 <= x < |m.text| => SpanAt(spans, x)), shortName, serialize)
  }

  function SyntaxHighlightedHtml(ctx: Context, cs: seq<Content>, language: seq<char>, h: HighlighterFunction,
                                 mode: HtmlMode, shortName: HighlightType -> seq<byte>,
                                 serialize: seq<HtmlEvent> -> seq<byte>): (r: HighlightedHtml)
    requires NodesWithin(cs, ctx.source) && AllReachable(ctx, cs)
    ensures r.result.Err? ==> r.events == [] && !r.crashed
    ensures r.crashed ==> r.result.Ok? && (r.events == [] || mode == Trimmed)
  {
    var m := SequenceMapped(ctx, cs);
    match h(m.text, language)
    case Failure(e) => HighlightedHtml(R.Err(e), [], false)
    case Success(spans) =>
      if !SpansWithin(spans, |m.text|) then HighlightedHtml(R.Ok, [], true)
      else
        var t := TablesFor(m, spans, shortName, serialize);
        var copy := CopySequence(t, ctx, cs, 0).out;
        CopySequenceWithin(t, ctx, cs, 0);
        var o := RenderedHtml(ctx, copy, mode, DEFAULT_PARAGRAPHS_STATE, PS.Corrected);
        HighlightedHtml(R.Ok, o.events, o.crashed)
  }

  /** `to_html_syntax_highlighted`, which asserts a mode without
    * paragraphs. */
  method ToHtmlSyntaxHighlighted(out: HtmlWriter, ctx: Context, cs: seq<Content>, language: seq<char>,
                                 h: HighlighterFunction, mode: HtmlMode, shortName: HighlightType -> seq<byte>,
                                 serialize: seq<HtmlEvent> -> seq<byte>)
    returns (r: R.VoidResult<SyntaxHighlightError>, crashed: bool)
    requires NodesWithin(cs, ctx.source) && AllReachable(ctx, cs) && !IsParagraphed(mode)
    modifies out
    ensures var e := SyntaxHighlightedHtml(ctx, cs, language, h, mode, shortName, serialize);
      r == e.result && crashed == e.crashed && out.events == old(out.events) + e.events
  {
    var plaintext := new Vector<byte>();
    var toSource := new Vector<nat>();
    MapSequence(plaintext, toSource, ctx, cs);
    var m := Mapped(plaintext.items, toSource.items);
    assert m == SequenceMapped(ctx, cs);
    var applied := Apply(h, [], m.text, language);
    var spans := applied.0;
    r := applied.1;
    if !r.HasValue() {
      crashed := false;
      return;
    }
    assert spans == h(m.text, language).value;
    var table, ok := BuildSpanTable(spans, |m.text|);
    if !ok {
      crashed := true;
      return;
    }
    var t := Tables(m.text, m.mapping, table[..], shortName, serialize);
    assert t == TablesFor(m, spans, shortName, serialize);
    var copy := CopyHighlighted(t, ctx, cs);
    CopySequenceWithin(t, ctx, cs, 0);
    crashed := ToHtml(out, ctx, copy, mode, DEFAULT_PARAGRAPHS_STATE, PS.Corrected);
  }

  // ---------------------------------------------------------------------
  // Properties.

  lemma ConcatAssoc<T>(a: seq<T>, b: seq<T>, c: seq<T>)
    ensures a + (b + c) == (a + b) + c
  {
  }

  /** The snippets lie within the plaintext. */
  lemma {:induction false} SnippetsBounded(t: Tables, i: nat, s: Ast.Span)
    requires t.Consistent() && i <= |t.text|
    ensures SnippetsWithin(t, Snippets(t, i, s).0)
    decreases |t.text| - i
  {
    if i < |t.text| && t.toSource[i] < s.begin {
      SnippetsBounded(t, i + 1, s);
    } else if i < |t.text| && s.begin <= t.toSource[i] < s.End() {
      var j := RunEnd(t, i + 1, s.End(), t.toSpan[i]);
      SnippetsBounded(t, j, s);
    }
  }

  /** A turn of the outer loop that skips a byte mapped before the span. */
  lemma TextInSkips(t: Tables, i: nat, s: Ast.Span)
    requires t.Consistent() && i < |t.text| && t.toSource[i] < s.begin
    ensures TextIn(t, i, s) == TextIn(t, i + 1, s)
  {
    assert Snippets(t, i, s) == Snippets(t, i + 1, s);
  }

  /** The outer loop stops at the end, or at a byte mapped past the span. */
  lemma TextInStops(t: Tables, i: nat, s: Ast.Span)
    requires t.Consistent() && i <= |t.text| && (i == |t.text| || t.toSource[i] >= s.End())
    ensures TextIn(t, i, s) == Copied([], i)
  {
    assert Snippets(t, i, s) == ([], i);
  }

  /** A turn of the outer loop that cuts a snippet at `i`. */
  lemma TextInCuts(t: Tables, i: nat, s: Ast.Span, j: nat, g: Content)
    requires t.Consistent() && i < |t.text| && s.begin <= t.toSource[i] < s.End()
    requires j == RunEnd(t, i + 1, s.End(), t.toSpan[i])
    requires g == SnippetNode(t, Snippet(i, j, t.toSpan[i]))
    ensures TextIn(t, i, s).out == [g] + TextIn(t, j, s).out
    ensures TextIn(t, i, s).index == TextIn(t, j, s).index
  {
    SnippetsBounded(t, i, s);
    SnippetsBounded(t, j, s);
    var ps := Snippets(t, i, s).0;
    assert ps == [Snippet(i, j, t.toSpan[i])] + Snippets(t, j, s).0;
    assert ps[1..] == Snippets(t, j, s).0;
  }

  /** The copy of nodes within the source is within it. */
  lemma {:induction false} CopySequenceWithin(t: Tables, ctx: Context, cs: seq<Content>, i: nat)
    requires t.Consistent() && i <= |t.text| && NodesWithin(cs, ctx.source) && AllReachable(ctx, cs)
    ensures NodesWithin(CopySequence(t, ctx, cs, i).out, ctx.source)
    decreases cs, 1
  {
    if cs != [] {
      var n := |cs| - 1;
      NodesWithinPrefix(cs, ctx.source, n);
      assert AllReachable(ctx, cs[..n]) by {
        assert forall k | 0 <= k < n :: cs[..n][k] == cs[k];
      }
      CopySequenceWithin(t, ctx, cs[..n], i);
      var init := CopySequence(t, ctx, cs[..n], i);
      CopyContentWithin(t, ctx, cs[n], init.index);
      NodesWithinConcat(init.out, CopyContent(t, ctx, cs[n], init.index).out, ctx.source);
    }
  }

  lemma {:induction false} CopyContentWithin(t: Tables, ctx: Context, c: Content, i: nat)
    requires t.Consistent() && i <= |t.text| && NodeWithin(c, ctx.source) && Reachable(ctx, c)
    ensures NodesWithin(CopyContent(t, ctx, c, i).out, ctx.source)
    decreases c, 0
  {
    var r := CopyContent(t, ctx, c, i);
    if c.DirectiveNode? {
      var b := ctx.Resolve(c);
      assert r == CopyDirective(t, ctx, c, i);
      if b.Some? && b.value.category == Formatting {
        CopySequenceWithin(t, ctx, c.content, i);
        var inner := CopySequence(t, ctx, c.content, i);
        var d := DirectiveNode(c.pos, c.nameLength, c.arguments, inner.out);
        assert r.out == [d];
        assert NodeWithin(d, ctx.source);
      } else if b.Some? && b.value.category == PurePlaintext {
        SnippetsBounded(t, i, c.pos);
        assert r.out == SnippetNodes(t, Snippets(t, i, c.pos).0);
        GeneratedNodesWithin(t, ctx.source, Snippets(t, i, c.pos).0);
      } else {
        assert r.out == [c];
      }
    } else {
      SnippetsBounded(t, i, c.pos);
      assert r.out == SnippetNodes(t, Snippets(t, i, c.pos).0);
      GeneratedNodesWithin(t, ctx.source, Snippets(t, i, c.pos).0);
    }
  }

  lemma {:induction false} GeneratedNodesWithin(t: Tables, source: seq<byte>, ps: seq<Snippet>)
    requires SnippetsWithin(t, ps)
    ensures NodesWithin(SnippetNodes(t, ps), source)
    ensures forall k | 0 <= k < |ps| :: SnippetNodes(t, ps)[k].GeneratedNode?
    decreases |ps|
  {
    if ps != [] {
      GeneratedNodesWithin(t, source, ps[1..]);
      var r := SnippetNodes(t, ps);
      assert forall k | 1 <= k < |ps| :: r[k] == SnippetNodes(t, ps[1..])[k - 1];
    }
  }

  /** Every snippet is a non-empty run of bytes under one span, mapped into
    * the source span, and the snippets come in order, before the index
    * the loop stops at. */
  predicate IsRun(t: Tables, s: Ast.Span, p: Snippet)
    requires t.Consistent()
  {
    && p.begin < p.end <= |t.text|
    && s.begin <= t.toSource[p.begin]
    && (forall x | p.begin <= x < p.end :: t.toSource[x] < s.End() && t.toSpan[x] == p.span)
  }

  lemma {:induction false} RunEndIsRun(t: Tables, j: nat, end: nat, current: Option<SpanRef>)
    requires t.Consistent() && j <= |t.text|
    ensures var r := RunEnd(t, j, end, current);
      forall x | j <= x < r :: t.toSource[x] < end && t.toSpan[x] == current
    decreases |t.text| - j
  {
    if j < |t.text| && t.toSource[j] < end && t.toSpan[j] == current {
      RunEndIsRun(t, j + 1, end, current);
    }
  }

  /** Runs from index `i` on, in order, ending by `end`. */
  predicate RunsIn(t: Tables, s: Ast.Span, i: nat, ps: seq<Snippet>, end: nat)
    requires t.Consistent()
  {
    && (forall k | 0 <= k < |ps| :: IsRun(t, s, ps[k]) && i <= ps[k].begin && ps[k].end <= end)
    && (forall k | 0 <= k < |ps| - 1 :: ps[k].end <= ps[k + 1].begin)
  }

  lemma {:induction false} SnippetsAreRuns(t: Tables, i: nat, s: Ast.Span)
    requires t.Consistent() && i <= |t.text|
    ensures RunsIn(t, s, i, Snippets(t, i, s).0, Snippets(t, i, s).1)
    decreases |t.text| - i
  {
    if i < |t.text| && t.toSource[i] < s.begin {
      SnippetsAreRuns(t, i + 1, s);
      assert Snippets(t, i, s) == Snippets(t, i + 1, s);
    } else if i < |t.text| && s.begin <= t.toSource[i] < s.End() {
      var j := RunEnd(t, i + 1, s.End(), t.toSpan[i]);
      RunEndIsRun(t, i + 1, s.End(), t.toSpan[i]);
      SnippetsAreRuns(t, j, s);
      var rest := Snippets(t, j, s);
      var p := Snippet(i, j, t.toSpan[i]);
      assert IsRun(t, s, p);
      RunsCons(t, s, i, p, rest.0, rest.1);
      assert Snippets(t, i, s) == ([p] + rest.0, rest.1);
    }
  }

  lemma RunsCons(t: Tables, s: Ast.Span, i: nat, p: Snippet, ps: seq<Snippet>, end: nat)
    requires t.Consistent() && IsRun(t, s, p) && i <= p.begin && RunsIn(t, s, p.end, ps, end)
    requires p.end <= end
    ensures RunsIn(t, s, i, [p] + ps, end)
  {
    var r := [p] + ps;
    assert forall k | 1 <= k < |r| :: r[k] == ps[k - 1];
    if ps != [] {
      assert r[1] == ps[0];
    }
  }

  /** A mapping that never decreases, as for nodes that come in source order. */
  predicate Sorted(m: seq<nat>)
  {
    forall a, b | 0 <= a <= b < |m| :: m[a] <= m[b]
  }

  /** The first index from `i` mapped at or past `x`. */
  function FirstFrom(m: seq<nat>, i: nat, x: nat): (r: nat)
    requires i <= |m|
    ensures i <= r <= |m|
    decreases |m| - i
  {
    if i == |m| || m[i] >= x then i else FirstFrom(m, i + 1, x)
  }

  /** The text the snippets cover, in order. */
  function SnippetsText(t: Tables, ps: seq<Snippet>): seq<byte>
    requires SnippetsWithin(t, ps)
  {
    if ps == [] then [] else t.text[ps[0].begin..ps[0].end] + SnippetsText(t, ps[1..])
  }

  /** For a sorted mapping, the snippets tile the bytes mapped into the
    * source span: their texts make up exactly the plaintext from the
    * first byte mapped at or past its start to the first byte mapped at
    * or past its end, where the loop stops. */
  lemma {:induction false} SnippetsTile(t: Tables, i: nat, s: Ast.Span)
    requires t.Consistent() && i <= |t.text| && Sorted(t.toSource)
    ensures var r := Snippets(t, i, s);
      var lo := FirstFrom(t.toSource, i, s.begin);
      var hi := FirstFrom(t.toSource, i, s.End());
      && SnippetsWithin(t, r.0) && lo <= hi && r.1 == hi
      && SnippetsText(t, r.0) == t.text[lo..hi]
    decreases |t.text| - i
  {
    SnippetsBounded(t, i, s);
    var m := t.toSource;
    if i < |t.text| && m[i] < s.begin {
      SnippetsTile(t, i + 1, s);
      assert Snippets(t, i, s) == Snippets(t, i + 1, s);
    } else if i < |t.text| && m[i] < s.End() {
      var j := RunEnd(t, i + 1, s.End(), t.toSpan[i]);
      SnippetsTile(t, j, s);
      TileStep(t, i, s, j);
    }
  }

  /** The step of `SnippetsTile` that cuts a snippet at `i`. */
  lemma TileStep(t: Tables, i: nat, s: Ast.Span, j: nat)
    requires t.Consistent() && i < |t.text| && Sorted(t.toSource) && s.begin <= t.toSource[i] < s.End()
    requires j == RunEnd(t, i + 1, s.End(), t.toSpan[i])
    requires var r := Snippets(t, j, s);
      var lo := FirstFrom(t.toSource, j, s.begin);
      var hi := FirstFrom(t.toSource, j, s.End());
      && SnippetsWithin(t, r.0) && lo <= hi && r.1 == hi
      && SnippetsText(t, r.0) == t.text[lo..hi]
    ensures var r := Snippets(t, i, s);
      var hi := FirstFrom(t.toSource, i, s.End());
      && SnippetsWithin(t, r.0) && FirstFrom(t.toSource, i, s.begin) == i && i <= hi && r.1 == hi
      && SnippetsText(t, r.0) == t.text[i..hi]
  {
    var m := t.toSource;
    SnippetsBounded(t, i, s);
    RunEndIsRun(t, i + 1, s.End(), t.toSpan[i]);
    var rest := Snippets(t, j, s);
    var r := Snippets(t, i, s);
    assert r.0 == [Snippet(i, j, t.toSpan[i])] + rest.0;
    assert r.0[1..] == rest.0;
    assert SnippetsText(t, r.0) == t.text[i..j] + SnippetsText(t, rest.0);
    assert FirstFrom(m, j, s.begin) == j by {
      assert j < |m| ==> m[i] <= m[j];
    }
    FirstFromSkips(m, i, j, s.End());
    var hi := FirstFrom(m, i, s.End());
    assert t.text[i..j] + t.text[j..hi] == t.text[i..hi];
  }

  /** For a sorted mapping, a snippet ends only where the span changes:
    * consecutive snippets have different spans. */
  lemma {:induction false} SnippetsMaximal(t: Tables, i: nat, s: Ast.Span)
    requires t.Consistent() && i <= |t.text| && Sorted(t.toSource)
    ensures var r := Snippets(t, i, s).0;
      forall k | 0 <= k < |r| - 1 :: r[k].span != r[k + 1].span
    decreases |t.text| - i
  {
    var m := t.toSource;
    if i < |t.text| && m[i] < s.begin {
      SnippetsMaximal(t, i + 1, s);
      assert Snippets(t, i, s) == Snippets(t, i + 1, s);
    } else if i < |t.text| && m[i] < s.End() {
      var j := RunEnd(t, i + 1, s.End(), t.toSpan[i]);
      SnippetsMaximal(t, j, s);
      var rest := Snippets(t, j, s).0;
      var r := Snippets(t, i, s).0;
      assert r == [Snippet(i, j, t.toSpan[i])] + rest;
      if rest != [] {
        RunStopsAt(t, i, s, j);
        assert r[1] == rest[0];
      }
      assert forall k | 1 <= k < |r| - 1 :: r[k] == rest[k - 1] && r[k + 1] == rest[k];
    }
  }

  /** Past bytes mapped before `x`, the first one mapped at or past it is the same. */
  lemma {:induction false} FirstFromSkips(m: seq<nat>, a: nat, b: nat, x: nat)
    requires a <= b <= |m| && forall y | a <= y < b :: m[y] < x
    ensures FirstFrom(m, a, x) == FirstFrom(m, b, x)
    decreases b - a
  {
    if a < b {
      FirstFromSkips(m, a + 1, b, x);
    }
  }

  /** For a sorted mapping, the snippet after the one ending at `j` starts
    * at `j`, under another span. */
  lemma RunStopsAt(t: Tables, i: nat, s: Ast.Span, j: nat)
    requires t.Consistent() && i < |t.text| && Sorted(t.toSource) && s.begin <= t.toSource[i] < s.End()
    requires j == RunEnd(t, i + 1, s.End(), t.toSpan[i])
    requires Snippets(t, j, s).0 != []
    ensures Snippets(t, j, s).0[0].begin == j && Snippets(t, j, s).0[0].span != t.toSpan[i]
  {
    RunEndStops(t, i + 1, s.End(), t.toSpan[i]);
    assert j < |t.text| && t.toSource[i] <= t.toSource[j];
  }

  lemma {:induction false} RunEndStops(t: Tables, j: nat, end: nat, current: Option<SpanRef>)
    requires t.Consistent() && j <= |t.text|
    ensures var r := RunEnd(t, j, end, current);
      r == |t.text| || t.toSource[r] >= end || t.toSpan[r] != current
    decreases |t.text| - j
  {
    if j < |t.text| && t.toSource[j] < end && t.toSpan[j] == current {
      RunEndStops(t, j + 1, end, current);
    }
  }

  /** A snippet writes exactly its text, wrapped in one `h-` element when
    * it is highlighted. */
  lemma SnippetWritesItsText(t: Tables, text: seq<byte>, span: Option<SpanRef>)
    ensures HP.InnerTexts(SnippetEvents(t, text, span)) == text
    ensures span.None? <==> SnippetEvents(t, text, span) == [InnerText(text)]
    ensures span.Some? ==> (SnippetEvents(t, text, span)[0] == OpenTagWithAttributes(H_TAG)
      && SnippetEvents(t, text, span)[|SnippetEvents(t, text, span)| - 1] == CloseTag(H_TAG))
  {
    var e := SnippetEvents(t, text, span);
    if span.Some? {
      HP.InnerTextsConcat(e[..4], [CloseTag(H_TAG)]);
      HP.InnerTextsConcat(e[..3], [InnerText(text)]);
      HP.InnerTextsConcat(e[..2], [EndAttributes]);
      HP.InnerTextsConcat(e[..1], [e[1]]);
      assert e[..4] + [CloseTag(H_TAG)] == e;
      assert e[..3] + [InnerText(text)] == e[..4];
      assert e[..2] + [EndAttributes] == e[..3];
      assert e[..1] + [e[1]] == e[..2];
    } else {
      HP.InnerTextsConcat([], [InnerText(text)]);
    }
  }

  /** The table agrees with the annotation of each byte: a byte is under
    * a span exactly when some span covers it, and under the type of the
    * last one that does. */
  lemma {:induction false} SpanAtIsAnnotation(spans: seq<HighlightSpan>, x: nat)
    ensures var r := SpanAt(spans, x);
      (if r.Some? then Some(r.value.kind) else None) == AnnotationAt(spans, x)
    ensures SpanAt(spans, x).Some? ==> (SpanAt(spans, x).value.id < |spans|
      && spans[SpanAt(spans, x).value.id].Covers(x))
    decreases |spans|
  {
    if spans != [] && !spans[|spans| - 1].Covers(x) {
      SpanAtIsAnnotation(spans[..|spans| - 1], x);
    }
  }

  /** A failing highlighter leaves the output as it was and passes its
    * error on. */
  lemma FailureWritesNothing(ctx: Context, cs: seq<Content>, language: seq<char>, h: HighlighterFunction,
                             mode: HtmlMode, shortName: HighlightType -> seq<byte>,
                             serialize: seq<HtmlEvent> -> seq<byte>)
    requires NodesWithin(cs, ctx.source) && AllReachable(ctx, cs)
    requires h(SequenceMapped(ctx, cs).text, language).Failure?
    ensures var e := SyntaxHighlightedHtml(ctx, cs, language, h, mode, shortName, serialize);
      e == HighlightedHtml(R.Err(h(SequenceMapped(ctx, cs).text, language).error), [], false)
  {
  }
}
