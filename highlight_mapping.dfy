/*
 * `to_plaintext_mapped_for_highlighting` of
 * src/main/cpp/directive_processing.cpp: the plaintext a highlighter is
 * given, with, for each of its bytes, the index in the document source of
 * the node that produced it.  Only text, escapes, `pure_plaintext`
 * directives and the content of `formatting` directives contribute.
 */
module HighlightMapping {
  import opened Chars
  import opened Options
  import opened DirectiveKinds
  import opened Ast
  import opened Directives
  import opened ProcessingModes
  import opened Plaintext
  import AnnotatedStrings

  /** The plaintext and, byte for byte, the source index behind it. */
  datatype Mapped = Mapped(text: seq<byte>, mapping: seq<nat>)

  /** The indices `a`, `a + 1`, ..., `b - 1`. */
  function Range(a: nat, b: nat): (r: seq<nat>)
    requires a <= b
    ensures |r| == b - a && forall i | 0 <= i < |r| :: r[i] == a + i
    decreases b - a
  {
    if a == b then [] else [a] + Range(a + 1, b)
  }

  lemma RangeSnoc(a: nat, b: nat)
    requires a <= b
    ensures Range(a, b + 1) == Range(a, b) + [b]
  {
    assert Range(a, b + 1) == Range(a, b) + [b];
  }

  /** The projection never meets a generated node, which it asserts cannot
    * happen: none at the top, and none in the content of a `formatting`
    * directive it recurses into. */
  predicate Reachable(ctx: Context, c: Content)
    requires NodeWithin(c, ctx.source)
    decreases c
  {
    match c
    case GeneratedNode(_, _, _) => false
    case DirectiveNode(_, _, _, content) =>
      var b := ctx.Resolve(c);
      b.Some? && b.value.category == Formatting ==>
        forall k | 0 <= k < |content| :: Reachable(ctx, content[k])
    case _ => true
  }

  predicate AllReachable(ctx: Context, cs: seq<Content>)
    requires NodesWithin(cs, ctx.source)
  {
    forall k | 0 <= k < |cs| :: Reachable(ctx, cs[k])
  }

  /** The projection of one node. */
  function ContentMapped(ctx: Context, c: Content): (r: Mapped)
    requires NodeWithin(c, ctx.source) && Reachable(ctx, c)
    ensures |r.text| == |r.mapping|
    decreases c, 1
  {
    match c
    case TextNode(pos) => Mapped(SpanSource(pos, ctx.source), Range(pos.begin, pos.End()))
    case EscapedNode(_) => Mapped([EscapedChar(c, ctx.source)], [EscapedCharIndex(c)])
    case DirectiveNode(_, _, _, _) => DirectiveMapped(ctx, c)
  }

  /** The projection of a directive, by the category of its behaviour. */
  function DirectiveMapped(ctx: Context, d: Content): (r: Mapped)
    requires d.DirectiveNode? && NodeWithin(d, ctx.source) && Reachable(ctx, d)
    ensures |r.text| == |r.mapping|
    decreases d, 0
  {
    match ctx.Resolve(d)
    case None => Mapped([], [])
    case Some(b) =>
      if b.category == Formatting then SequenceMapped(ctx, d.content)
      else if b.category == PurePlaintext then
        var g := ctx.generatePlaintext(b, d);
        Mapped(g, AnnotatedStrings.Repeat(|g|, d.pos.begin))
      else Mapped([], [])
  }

  /** The projection of each node, in order. */
  function SequenceMapped(ctx: Context, cs: seq<Content>): (r: Mapped)
    requires NodesWithin(cs, ctx.source) && AllReachable(ctx, cs)
    ensures |r.text| == |r.mapping|
    decreases cs, 2
  {
    if cs == [] then Mapped([], [])
    else
      var init := SequenceMapped(ctx, cs[..|cs| - 1]);
      var last := ContentMapped(ctx, cs[|cs| - 1]);
      Mapped(init.text + last.text, init.mapping + last.mapping)
  }

  // ---------------------------------------------------------------------
  // The overloads, appending into `out` and `outMapping`.

  /** The text overload: the text, and the index of each of its bytes. */
  method MapText(out: Vector<byte>, outMapping: Vector<nat>, ctx: Context, t: Content)
    requires t.TextNode? && NodeWithin(t, ctx.source)
    modifies out, outMapping
    ensures out.items == old(out.items) + ContentMapped(ctx, t).text
    ensures outMapping.items == old(outMapping.items) + ContentMapped(ctx, t).mapping
  {
    out.Append(SpanSource(t.pos, ctx.source));
    for i := t.pos.begin to t.pos.End()
      invariant out.items == old(out.items) + SpanSource(t.pos, ctx.source)
      invariant outMapping.items == old(outMapping.items) + Range(t.pos.begin, i)
    {
      RangeSnoc(t.pos.begin, i);
      outMapping.PushBack(i);
    }
  }

  /** The escape overload: the escaped character and its index. */
  method MapEscaped(out: Vector<byte>, outMapping: Vector<nat>, ctx: Context, e: Content)
    requires e.EscapedNode? && NodeWithin(e, ctx.source)
    modifies out, outMapping
    ensures out.items == old(out.items) + ContentMapped(ctx, e).text
    ensures outMapping.items == old(outMapping.items) + ContentMapped(ctx, e).mapping
  {
    out.PushBack(EscapedChar(e, ctx.source));
    outMapping.PushBack(EscapedCharIndex(e));
  }

  /** The directive overload. */
  method MapDirective(out: Vector<byte>, outMapping: Vector<nat>, ctx: Context, d: Content)
    requires d.DirectiveNode? && NodeWithin(d, ctx.source) && Reachable(ctx, d)
    modifies out, outMapping
    ensures out.items == old(out.items) + DirectiveMapped(ctx, d).text
    ensures outMapping.items == old(outMapping.items) + DirectiveMapped(ctx, d).mapping
    decreases d, 0
  {
    var behavior := ctx.FindDirectiveOf(d);
    if behavior.None? {
      return;
    }
    var b := behavior.value;
    if b.category == Formatting {
      MapSequence(out, outMapping, ctx, d.content);
    } else if b.category == PurePlaintext {
      var initialOutSize := |out.items|;
      out.Append(ctx.generatePlaintext(b, d));
      for i := initialOutSize to |out.items|
        invariant out.items == old(out.items) + ctx.generatePlaintext(b, d)
        invariant outMapping.items == old(outMapping.items) + AnnotatedStrings.Repeat(i - initialOutSize, d.pos.begin)
      {
        outMapping.PushBack(d.pos.begin);
      }
    }
  }

  /** The overload for any node. */
  method MapContent(out: Vector<byte>, outMapping: Vector<nat>, ctx: Context, c: Content)
    requires NodeWithin(c, ctx.source) && Reachable(ctx, c)
    modifies out, outMapping
    ensures out.items == old(out.items) + ContentMapped(ctx, c).text
    ensures outMapping.items == old(outMapping.items) + ContentMapped(ctx, c).mapping
    decreases c, 1
  {
    match c
    case TextNode(_) => MapText(out, outMapping, ctx, c);
    case EscapedNode(_) => MapEscaped(out, outMapping, ctx, c);
    case DirectiveNode(_, _, _, _) => MapDirective(out, outMapping, ctx, c);
  }

  /** The overload for a sequence of nodes. */
  method MapSequence(out: Vector<byte>, outMapping: Vector<nat>, ctx: Context, cs: seq<Content>)
    requires NodesWithin(cs, ctx.source) && AllReachable(ctx, cs)
    modifies out, outMapping
    ensures out.items == old(out.items) + SequenceMapped(ctx, cs).text
    ensures outMapping.items == old(outMapping.items) + SequenceMapped(ctx, cs).mapping
    decreases cs, 2
  {
    for k := 0 to |cs|
      invariant out.items == old(out.items) + SequenceMapped(ctx, cs[..k]).text
      invariant outMapping.items == old(outMapping.items) + SequenceMapped(ctx, cs[..k]).mapping
    {
      MapNext(out, outMapping, ctx, cs, k, old(out.items), old(outMapping.items));
    }
    assert cs[..|cs|] == cs;
  }

  /** One turn of the loop over a sequence: node `k` after the first `k`. */
  method MapNext(out: Vector<byte>, outMapping: Vector<nat>, ctx: Context, cs: seq<Content>, k: nat,
                 ghost text: seq<byte>, ghost mapping: seq<nat>)
    requires k < |cs| && NodesWithin(cs, ctx.source) && AllReachable(ctx, cs)
    requires out.items == text + SequenceMapped(ctx, cs[..k]).text
    requires outMapping.items == mapping + SequenceMapped(ctx, cs[..k]).mapping
    modifies out, outMapping
    ensures out.items == text + SequenceMapped(ctx, cs[..k + 1]).text
    ensures outMapping.items == mapping + SequenceMapped(ctx, cs[..k + 1]).mapping
    decreases cs, 1
  {
    assert cs[..k + 1][..k] == cs[..k];
    MapContent(out, outMapping, ctx, cs[k]);
  }

  // ---------------------------------------------------------------------
  // Properties.

  /** Every recorded index is an index into the source: a text byte maps
    * to its own position, an escape to the escaped character, a byte of
    * `pure_plaintext` output to the directive's backslash. */
  lemma {:induction false} SequenceMappedWithin(ctx: Context, cs: seq<Content>)
    requires NodesWithin(cs, ctx.source) && AllReachable(ctx, cs)
    ensures forall i | 0 <= i < |SequenceMapped(ctx, cs).mapping| :: SequenceMapped(ctx, cs).mapping[i] < |ctx.source|
    decreases cs, 1
  {
    if cs != [] {
      var n := |cs| - 1;
      NodesWithinPrefix(cs, ctx.source, n);
      assert AllReachable(ctx, cs[..n]) by {
        assert forall k | 0 <= k < n :: cs[..n][k] == cs[k];
      }
      SequenceMappedWithin(ctx, cs[..n]);
      ContentMappedWithin(ctx, cs[n]);
    }
  }

  lemma {:induction false} ContentMappedWithin(ctx: Context, c: Content)
    requires NodeWithin(c, ctx.source) && Reachable(ctx, c)
    ensures forall i | 0 <= i < |ContentMapped(ctx, c).mapping| :: ContentMapped(ctx, c).mapping[i] < |ctx.source|
    decreases c, 0
  {
    if c.DirectiveNode? {
      assert c.pos.begin < |ctx.source|;
      var b := ctx.Resolve(c);
      assert ContentMapped(ctx, c) == DirectiveMapped(ctx, c);
      if b.Some? && b.value.category == Formatting {
        SequenceMappedWithin(ctx, c.content);
        assert DirectiveMapped(ctx, c) == SequenceMapped(ctx, c.content);
      } else if b.Some? && b.value.category == PurePlaintext {
        var g := ctx.generatePlaintext(b.value, c);
        assert DirectiveMapped(ctx, c).mapping == AnnotatedStrings.Repeat(|g|, c.pos.begin);
      }
    } else if c.TextNode? {
      assert c.pos.End() <= |ctx.source|;
    }
  }

  /** Without an error behaviour, the projected text is the side-effect-free
    * plaintext: the projection differs from `to_plaintext` in
    * `no_side_effects` mode only in recording where each byte came from. */
  lemma {:induction false} MappedIsSideEffectFreePlaintext(ctx: Context, cs: seq<Content>)
    requires NodesWithin(cs, ctx.source) && AllReachable(ctx, cs) && ctx.errorBehavior.None?
    ensures SequenceMapped(ctx, cs).text == SequencePlaintext(ctx, cs, NoSideEffects).text
    decreases cs, 1
  {
    if cs != [] {
      var n := |cs| - 1;
      NodesWithinPrefix(cs, ctx.source, n);
      assert AllReachable(ctx, cs[..n]) by {
        assert forall k | 0 <= k < n :: cs[..n][k] == cs[k];
      }
      MappedIsSideEffectFreePlaintext(ctx, cs[..n]);
      ContentMappedIsPlaintext(ctx, cs[n]);
    }
  }

  lemma {:induction false} ContentMappedIsPlaintext(ctx: Context, c: Content)
    requires NodeWithin(c, ctx.source) && Reachable(ctx, c) && ctx.errorBehavior.None?
    ensures ContentMapped(ctx, c).text == ContentPlaintext(ctx, c, NoSideEffects).text
    decreases c, 0
  {
    if c.DirectiveNode? {
      var b := ctx.Resolve(c);
      if b.Some? && b.value.category == Formatting {
        MappedIsSideEffectFreePlaintext(ctx, c.content);
      }
      assert ContentPlaintext(ctx, c, NoSideEffects) == DirectivePlaintext(ctx, c, NoSideEffects);
    }
  }
}
