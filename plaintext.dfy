/*
 * Plaintext generation, the three `to_plaintext` overloads and
 * `try_generate_error_plaintext` of src/main/cpp/directive_processing.cpp.
 *
 * `ContentPlaintext`, `DirectivePlaintext` and `SequencePlaintext` say what
 * is appended and which status is returned; the methods append into a
 * vector as the source does and are proved to do exactly that.  A
 * behaviour's `generate_plaintext` is the context's `generatePlaintext`.
 */
module Plaintext {
  import opened Chars
  import opened Options
  import opened DirectiveKinds
  import opened Ast
  import opened Directives
  import opened ProcessingModes

  /** What plaintext generation appends, and the status it returns. */
  datatype Plain = Plain(text: seq<byte>, status: PlaintextStatus)

  /** What `try_generate_error_plaintext` appends: the error behaviour's
    * plaintext, or nothing when the context has none. */
  function ErrorPlaintext(ctx: Context, d: Content): seq<byte>
  {
    if ctx.errorBehavior.Some? then ctx.generatePlaintext(ctx.errorBehavior.value, d) else []
  }

  /** `to_plaintext(out, content, context, mode)` of one node: text and
    * escapes are always `ok`, only a directive can be an `error`, and only
    * generated content or the `no_side_effects` mode ignores something. */
  function ContentPlaintext(ctx: Context, c: Content, mode: PlaintextMode): (r: Plain)
    requires NodeWithin(c, ctx.source)
    ensures c.TextNode? || c.EscapedNode? ==> r.status == Ok
    ensures r.status == Error ==> c.DirectiveNode?
    ensures r.status == SomeIgnored ==> c.GeneratedNode? || mode == NoSideEffects
    decreases c, 1
  {
    match c
    case TextNode(pos) => Plain(SpanSource(pos, ctx.source), Ok)
    case EscapedNode(_) => Plain([EscapedChar(c, ctx.source)], Ok)
    case GeneratedNode(data, kind, _) => if kind == Plaintext then Plain(data, Ok) else Plain([], SomeIgnored)
    case DirectiveNode(_, _, _, _) => DirectivePlaintext(ctx, c, mode)
  }

  /** `to_plaintext(out, directive, context, mode)`: an `error` exactly
    * when no behaviour resolves the name, and something is ignored only in
    * the `no_side_effects` mode. */
  function DirectivePlaintext(ctx: Context, d: Content, mode: PlaintextMode): (r: Plain)
    requires d.DirectiveNode? && NodeWithin(d, ctx.source)
    ensures r.status == Error <==> ctx.Resolve(d).None?
    ensures r.status == SomeIgnored ==> mode == NoSideEffects
    decreases d, 0
  {
    match ctx.Resolve(d)
    case None => Plain(ErrorPlaintext(ctx, d), Error)
    case Some(b) =>
      if b.category == PurePlaintext then Plain(ctx.generatePlaintext(b, d), Ok)
      else if b.category == Formatting then
        if mode == NoSideEffects then Plain(SequencePlaintext(ctx, d.content, NoSideEffects).text, Ok)
        else Plain(ctx.generatePlaintext(b, d), Ok)
      else if mode != NoSideEffects then Plain(ctx.generatePlaintext(b, d), Ok)
      else Plain([], SomeIgnored)
  }

  /** `to_plaintext(out, span, context, mode)`: the output of every node in
    * order, and the highest status; nothing and `ok` for no nodes. */
  function SequencePlaintext(ctx: Context, cs: seq<Content>, mode: PlaintextMode): (r: Plain)
    requires NodesWithin(cs, ctx.source)
    ensures cs == [] ==> r == Plain([], Ok)
    decreases cs, 2
  {
    if cs == [] then Plain([], Ok)
    else
      var init := SequencePlaintext(ctx, cs[..|cs| - 1], mode);
      var last := ContentPlaintext(ctx, cs[|cs| - 1], mode);
      Plain(init.text + last.text, MaxStatus(init.status, last.status))
  }

  /** `try_generate_error_plaintext`. */
  method TryGenerateErrorPlaintext(out: Vector<byte>, ctx: Context, d: Content)
    modifies out
    ensures out.items == old(out.items) + ErrorPlaintext(ctx, d)
  {
    if ctx.errorBehavior.Some? {
      out.Append(ctx.generatePlaintext(ctx.errorBehavior.value, d));
    }
  }

  /** `to_plaintext` of one node. */
  method ToPlaintextContent(out: Vector<byte>, ctx: Context, c: Content, mode: PlaintextMode)
    returns (status: PlaintextStatus)
    requires NodeWithin(c, ctx.source)
    modifies out
    ensures out.items == old(out.items) + ContentPlaintext(ctx, c, mode).text
    ensures status == ContentPlaintext(ctx, c, mode).status
    decreases c, 1
  {
    match c
    case TextNode(pos) =>
      out.Append(SpanSource(pos, ctx.source));
      status := Ok;
    case EscapedNode(_) =>
      out.PushBack(EscapedChar(c, ctx.source));
      status := Ok;
    case GeneratedNode(data, kind, _) =>
      if kind == Plaintext {
        out.Append(data);
        status := Ok;
      } else {
        status := SomeIgnored;
      }
    case DirectiveNode(_, _, _, _) =>
      status := ToPlaintextDirective(out, ctx, c, mode);
  }

  /** `to_plaintext` of a directive: by the category of its behaviour. */
  method ToPlaintextDirective(out: Vector<byte>, ctx: Context, d: Content, mode: PlaintextMode)
    returns (status: PlaintextStatus)
    requires d.DirectiveNode? && NodeWithin(d, ctx.source)
    modifies out
    ensures out.items == old(out.items) + DirectivePlaintext(ctx, d, mode).text
    ensures status == DirectivePlaintext(ctx, d, mode).status
    decreases d, 0
  {
    var behavior := ctx.FindDirectiveOf(d);
    if behavior.None? {
      TryGenerateErrorPlaintext(out, ctx, d);
      return Error;
    }
    var b := behavior.value;
    if b.category == PurePlaintext {
      out.Append(ctx.generatePlaintext(b, d));
      status := Ok;
    } else if b.category == Formatting {
      if mode == NoSideEffects {
        var _ := ToPlaintextSequence(out, ctx, d.content, NoSideEffects);
      } else {
        out.Append(ctx.generatePlaintext(b, d));
      }
      status := Ok;
    } else if mode != NoSideEffects {
      out.Append(ctx.generatePlaintext(b, d));
      status := Ok;
    } else {
      status := SomeIgnored;
    }
  }

  /** `to_plaintext` of a sequence of nodes. */
  method ToPlaintextSequence(out: Vector<byte>, ctx: Context, cs: seq<Content>, mode: PlaintextMode)
    returns (status: PlaintextStatus)
    requires NodesWithin(cs, ctx.source)
    modifies out
    ensures out.items == old(out.items) + SequencePlaintext(ctx, cs, mode).text
    ensures status == SequencePlaintext(ctx, cs, mode).status
    decreases cs, 2
  {
    status := Ok;
    for k := 0 to |cs|
      invariant out.items == old(out.items) + SequencePlaintext(ctx, cs[..k], mode).text
      invariant status == SequencePlaintext(ctx, cs[..k], mode).status
    {
      assert cs[..k + 1][..k] == cs[..k];
      var s := ToPlaintextContent(out, ctx, cs[k], mode);
      status := MaxStatus(status, s);
    }
    assert cs[..|cs|] == cs;
  }

  // ---------------------------------------------------------------------
  // Properties.

  /** The plaintext of two sequences in a row is the plaintext of the
    * first followed by that of the second, with the higher status. */
  lemma {:induction false} SequencePlaintextConcat(ctx: Context, a: seq<Content>, b: seq<Content>, mode: PlaintextMode)
    requires NodesWithin(a, ctx.source) && NodesWithin(b, ctx.source)
    ensures NodesWithin(a + b, ctx.source)
    ensures var pa := SequencePlaintext(ctx, a, mode); var pb := SequencePlaintext(ctx, b, mode);
      SequencePlaintext(ctx, a + b, mode) == Plain(pa.text + pb.text, MaxStatus(pa.status, pb.status))
    decreases |b|
  {
    NodesWithinConcat(a, b, ctx.source);
    if b == [] {
      assert a + b == a;
    } else {
      var n := |b| - 1;
      NodesWithinPrefix(b, ctx.source, n);
      SequencePlaintextConcat(ctx, a, b[..n], mode);
      assert (a + b)[..|a + b| - 1] == a + b[..n];
      assert (a + b)[|a + b| - 1] == b[n];
      ConcatStep(SequencePlaintext(ctx, a, mode), SequencePlaintext(ctx, b[..n], mode), ContentPlaintext(ctx, b[n], mode),
                 SequencePlaintext(ctx, a + b[..n], mode), SequencePlaintext(ctx, b, mode), SequencePlaintext(ctx, a + b, mode));
    }
  }

  /** The arithmetic of one step of `SequencePlaintextConcat`. */
  lemma ConcatStep(pa: Plain, pi: Plain, pl: Plain, pai: Plain, pb: Plain, pab: Plain)
    requires pai == Plain(pa.text + pi.text, MaxStatus(pa.status, pi.status))
    requires pb == Plain(pi.text + pl.text, MaxStatus(pi.status, pl.status))
    requires pab == Plain(pai.text + pl.text, MaxStatus(pai.status, pl.status))
    ensures pab == Plain(pa.text + pb.text, MaxStatus(pa.status, pb.status))
  {
    MaxStatusAlgebra(pa.status, pi.status, pl.status);
    assert pa.text + pi.text + pl.text == pa.text + (pi.text + pl.text);
  }

  /** The status of a sequence is the highest status of its nodes: `ok`
    * exactly when every node is `ok` (so for the empty sequence), `error`
    * exactly when some node is `error`. */
  lemma SequenceStatusIsMax(ctx: Context, cs: seq<Content>, mode: PlaintextMode)
    requires NodesWithin(cs, ctx.source)
    ensures var s := SequencePlaintext(ctx, cs, mode).status;
      && (s == Ok <==> forall k | 0 <= k < |cs| :: ContentPlaintext(ctx, cs[k], mode).status == Ok)
      && (s == Error <==> exists k | 0 <= k < |cs| :: ContentPlaintext(ctx, cs[k], mode).status == Error)
      && (forall k | 0 <= k < |cs| :: ContentPlaintext(ctx, cs[k], mode).status.Rank() <= s.Rank())
  {
    StatusBoundsNodes(ctx, cs, mode, SequencePlaintext(ctx, cs, mode).status);
    StatusIsSomeNode(ctx, cs, mode, SequencePlaintext(ctx, cs, mode).status);
    var s := SequencePlaintext(ctx, cs, mode).status;
    if s != Ok {
      var k :| 0 <= k < |cs| && ContentPlaintext(ctx, cs[k], mode).status == s;
      assert ContentPlaintext(ctx, cs[k], mode).status != Ok;
    }
    if s != Error {
      forall k | 0 <= k < |cs|
        ensures ContentPlaintext(ctx, cs[k], mode).status != Error
      {
        ErrorHasTopRank(ContentPlaintext(ctx, cs[k], mode).status, s);
      }
    }
  }

  /** `Error` has the highest rank: nothing ranked at most a status other
    * than `Error` is `Error`. */
  lemma ErrorHasTopRank(a: PlaintextStatus, s: PlaintextStatus)
    requires a.Rank() <= s.Rank() && s != Error
    ensures a != Error
  {
  }

  /** The status `s` of a sequence bounds the status of each node. */
  lemma {:induction false} StatusBoundsNodes(ctx: Context, cs: seq<Content>, mode: PlaintextMode, s: PlaintextStatus)
    requires NodesWithin(cs, ctx.source) && s == SequencePlaintext(ctx, cs, mode).status
    ensures forall k | 0 <= k < |cs| :: ContentPlaintext(ctx, cs[k], mode).status.Rank() <= s.Rank()
    decreases |cs|
  {
    if cs != [] {
      var n := |cs| - 1;
      NodesWithinPrefix(cs, ctx.source, n);
      var si := SequencePlaintext(ctx, cs[..n], mode).status;
      var sl := ContentPlaintext(ctx, cs[n], mode).status;
      StatusBoundsNodes(ctx, cs[..n], mode, si);
      assert s == MaxStatus(si, sl);
      MaxStatusAlgebra(si, sl, Ok);
      forall k | 0 <= k < n
        ensures ContentPlaintext(ctx, cs[k], mode).status.Rank() <= s.Rank()
      {
        assert cs[..n][k] == cs[k];
      }
    }
  }

  /** The status of a non-empty sequence is that of one of its nodes; that
    * of the empty sequence is `Ok`. */
  lemma {:induction false} StatusIsSomeNode(ctx: Context, cs: seq<Content>, mode: PlaintextMode, s: PlaintextStatus)
    requires NodesWithin(cs, ctx.source) && s == SequencePlaintext(ctx, cs, mode).status
    ensures cs == [] ==> s == Ok
    ensures s != Ok ==> exists k | 0 <= k < |cs| :: ContentPlaintext(ctx, cs[k], mode).status == s
    decreases |cs|
  {
    if cs != [] {
      var n := |cs| - 1;
      NodesWithinPrefix(cs, ctx.source, n);
      var si := SequencePlaintext(ctx, cs[..n], mode).status;
      var sl := ContentPlaintext(ctx, cs[n], mode).status;
      StatusIsSomeNode(ctx, cs[..n], mode, si);
      assert s == MaxStatus(si, sl);
      if s != Ok && s != sl {
        assert s == si;
        var k :| 0 <= k < n && ContentPlaintext(ctx, cs[..n][k], mode).status == si;
        assert cs[..n][k] == cs[k];
      }
    }
  }

  /** The trimmed mode is accepted but treated as the normal mode: the
    * overloads only tell `no_side_effects` apart. */
  lemma {:induction false} TrimmedPlaintextIsNormal(ctx: Context, cs: seq<Content>)
    requires NodesWithin(cs, ctx.source)
    ensures SequencePlaintext(ctx, cs, TrimmedPlaintext) == SequencePlaintext(ctx, cs, Normal)
    decreases |cs|
  {
    if cs != [] {
      var n := |cs| - 1;
      NodesWithinPrefix(cs, ctx.source, n);
      TrimmedPlaintextIsNormal(ctx, cs[..n]);
      if cs[n].DirectiveNode? {
        assert DirectivePlaintext(ctx, cs[n], TrimmedPlaintext) == DirectivePlaintext(ctx, cs[n], Normal);
      }
      assert ContentPlaintext(ctx, cs[n], TrimmedPlaintext) == ContentPlaintext(ctx, cs[n], Normal);
    }
  }

  /** A directive nobody resolves is an error in every mode, and its text
    * is what the error behaviour generates. */
  lemma UnresolvedIsError(ctx: Context, d: Content, mode: PlaintextMode)
    requires d.DirectiveNode? && NodeWithin(d, ctx.source) && ctx.Resolve(d).None?
    ensures SequencePlaintext(ctx, [d], mode) == Plain(ErrorPlaintext(ctx, d), Error)
  {
    assert [d][..0] == [];
    assert NodesWithin([d], ctx.source);
    assert ContentPlaintext(ctx, d, mode) == DirectivePlaintext(ctx, d, mode);
  }
}
