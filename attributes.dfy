/*
 * `arguments_to_attributes`, `argument_to_attribute` and
 * `argument_to_plaintext` of src/main/cpp/directive_processing.cpp: a
 * directive's arguments become HTML attributes (a named argument the
 * attribute of that name with the argument's plaintext as its value, a
 * positional one an empty attribute named by its plaintext), optionally
 * only those whose key a filter accepts; and the plaintext of the argument
 * an `Argument_Matcher` matched to a parameter.
 *
 * A `Function_Ref<bool(std::u8string_view)>` that may be null is an
 * `Option` of a function.  The matcher itself is not part of this model:
 * only the index `get_argument_index` returns for the parameter is given.
 */
module ArgumentAttributes {
  import opened Chars
  import opened Options
  import opened Ast
  import opened Directives
  import opened HtmlWriters
  import opened ProcessingModes
  import opened Plaintext

  /** The plaintext of an argument's content, in the default mode. */
  function ArgumentValue(ctx: Context, a: Argument): seq<byte>
    requires ArgumentWithin(a, ctx.source)
  {
    SequencePlaintext(ctx, a.content, Normal).text
  }

  /** Whether a filter, if there is one, lets `key` through. */
  predicate Accepts(filter: Option<seq<byte> -> bool>, key: seq<byte>)
  {
    filter.None? || filter.value(key)
  }

  /** The attribute written for `a`, or nothing when the filter rejects it. */
  function ArgumentAttribute(ctx: Context, a: Argument, filter: Option<seq<byte> -> bool>, style: AttributeStyle)
    : (r: Option<HtmlEvent>)
    requires ArgumentWithin(a, ctx.source)
    ensures r.Some? ==> r.value.WriteAttribute? && r.value.style == style && (r.value.value.Some? <==> HasName(a))
  {
    var value := ArgumentValue(ctx, a);
    if HasName(a) then
      var name := ArgumentNameText(a, ctx.source);
      if Accepts(filter, name) then Some(WriteAttribute(name, Some(value), style)) else None
    else if Accepts(filter, value) then Some(WriteAttribute(value, None, style))
    else None
  }

  /** `argument_to_attribute`: `written` tells an attribute was written. */
  method ArgumentToAttribute(out: HtmlWriter, a: Argument, ctx: Context, filter: Option<seq<byte> -> bool>,
                             style: AttributeStyle)
    returns (written: bool)
    requires ArgumentWithin(a, ctx.source)
    modifies out
    ensures written <==> ArgumentAttribute(ctx, a, filter, style).Some?
    ensures out.events == old(out.events)
      + (if written then [ArgumentAttribute(ctx, a, filter, style).value] else [])
  {
    var value := new Vector<byte>();
    var _ := ToPlaintextSequence(value, ctx, a.content, Normal);
    assert value.items == ArgumentValue(ctx, a);
    if HasName(a) {
      var name := ArgumentNameText(a, ctx.source);
      if filter.None? || filter.value(name) {
        out.WriteAttribute(name, value.items, style);
        return true;
      }
    } else if filter.None? || filter.value(value.items) {
      out.WriteEmptyAttribute(value.items, style);
      return true;
    }
    return false;
  }

  /** One turn of the loop of `arguments_to_attributes`: argument `k`
    * after the first `k`. */
  method AttributesNext(out: HtmlWriter, ctx: Context, args: seq<Argument>, k: nat, filter: Option<seq<byte> -> bool>,
                        style: AttributeStyle, ghost prior: seq<HtmlEvent>)
    requires ArgumentsWithin(args, ctx.source) && k < |args|
    requires (ArgumentsWithinPrefix(args, ctx.source, k);
      out.events == prior + ArgumentsAttributes(ctx, args[..k], filter, style))
    modifies out
    ensures (ArgumentsWithinPrefix(args, ctx.source, k + 1);
      out.events == prior + ArgumentsAttributes(ctx, args[..k + 1], filter, style))
  {
    AttributesStep(ctx, args, k, filter, style);
    var _ := ArgumentToAttribute(out, args[k], ctx, filter, style);
  }

  predicate ArgumentsWithin(args: seq<Argument>, source: seq<byte>)
  {
    forall k | 0 <= k < |args| :: ArgumentWithin(args[k], source)
  }

  /** The attributes of each argument in turn. */
  function ArgumentsAttributes(ctx: Context, args: seq<Argument>, filter: Option<seq<byte> -> bool>,
                               style: AttributeStyle): (r: seq<HtmlEvent>)
    requires ArgumentsWithin(args, ctx.source)
    ensures |r| <= |args|
  {
    if args == [] then []
    else
      var n := |args| - 1;
      var a := ArgumentAttribute(ctx, args[n], filter, style);
      ArgumentsAttributes(ctx, args[..n], filter, style) + (if a.Some? then [a.value] else [])
  }

  /** `arguments_to_attributes`. */
  method ArgumentsToAttributes(out: HtmlWriter, d: Content, ctx: Context, filter: Option<seq<byte> -> bool>,
                               style: AttributeStyle)
    requires d.DirectiveNode? && NodeWithin(d, ctx.source)
    modifies out
    ensures ArgumentsWithin(d.arguments, ctx.source)
    ensures out.events == old(out.events) + ArgumentsAttributes(ctx, d.arguments, filter, style)
  {
    var args := d.arguments;
    assert ArgumentsWithin(args, ctx.source);
    for k := 0 to |args|
      invariant (ArgumentsWithinPrefix(args, ctx.source, k);
        out.events == old(out.events) + ArgumentsAttributes(ctx, args[..k], filter, style))
    {
      AttributesNext(out, ctx, args, k, filter, style, old(out.events));
    }
    assert args[..|args|] == args;
  }

  /** `argument_to_plaintext` with the index the matcher returned for the
    * parameter, negative when it matched no argument. */
  method ArgumentToPlaintext(out: Vector<byte>, d: Content, index: int, ctx: Context) returns (matched: bool)
    requires d.DirectiveNode? && NodeWithin(d, ctx.source) && index < |d.arguments|
    modifies out
    ensures matched <==> 0 <= index
    ensures matched ==> out.items == old(out.items) + ArgumentValue(ctx, d.arguments[index])
    ensures !matched ==> out.items == old(out.items)
  {
    if index < 0 {
      return false;
    }
    var arg := d.arguments[index];
    assert ArgumentWithin(arg, ctx.source);
    var _ := ToPlaintextSequence(out, ctx, arg.content, Normal);
    return true;
  }

  // ---------------------------------------------------------------------
  // Properties.

  /** An argument is written exactly when the filter accepts its key: the
    * name of a named argument, the value of a positional one; a named
    * argument the filter rejects is not tried as an empty attribute. */
  lemma AttributeIffAccepted(ctx: Context, a: Argument, filter: Option<seq<byte> -> bool>, style: AttributeStyle)
    requires ArgumentWithin(a, ctx.source)
    ensures var key := if HasName(a) then ArgumentNameText(a, ctx.source) else ArgumentValue(ctx, a);
      var r := ArgumentAttribute(ctx, a, filter, style);
      && (r.Some? <==> Accepts(filter, key))
      && (r.Some? ==> r.value.WriteAttribute? && r.value.name == key && r.value.style == style)
      && (r.Some? ==> (r.value.value.Some? <==> HasName(a)))
      && (r.Some? && HasName(a) ==> r.value.value == Some(ArgumentValue(ctx, a)))
  {
  }

  lemma ArgumentsWithinPrefix(args: seq<Argument>, source: seq<byte>, n: nat)
    requires ArgumentsWithin(args, source) && n <= |args|
    ensures ArgumentsWithin(args[..n], source)
  {
    assert forall j | 0 <= j < n :: args[..n][j] == args[j];
  }

  /** One more argument adds its attribute, if any, at the end. */
  lemma AttributesStep(ctx: Context, args: seq<Argument>, k: nat, filter: Option<seq<byte> -> bool>, style: AttributeStyle)
    requires ArgumentsWithin(args, ctx.source) && k < |args|
    ensures (ArgumentsWithinPrefix(args, ctx.source, k); ArgumentsWithinPrefix(args, ctx.source, k + 1);
      var a := ArgumentAttribute(ctx, args[k], filter, style);
      ArgumentsAttributes(ctx, args[..k + 1], filter, style)
        == ArgumentsAttributes(ctx, args[..k], filter, style) + (if a.Some? then [a.value] else []))
  {
    ArgumentsWithinPrefix(args, ctx.source, k);
    ArgumentsWithinPrefix(args, ctx.source, k + 1);
    assert args[..k + 1][..k] == args[..k];
    assert args[..k + 1][k] == args[k];
  }

  /** Without a filter, every argument becomes one attribute, in order. */
  lemma {:induction false} UnfilteredWritesEvery(ctx: Context, args: seq<Argument>, style: AttributeStyle)
    requires ArgumentsWithin(args, ctx.source)
    ensures var r := ArgumentsAttributes(ctx, args, None, style);
      |r| == |args| && forall k | 0 <= k < |args| :: Some(r[k]) == ArgumentAttribute(ctx, args[k], None, style)
    decreases |args|
  {
    if args != [] {
      var n := |args| - 1;
      ArgumentsWithinPrefix(args, ctx.source, n);
      UnfilteredWritesEvery(ctx, args[..n], style);
      var init := ArgumentsAttributes(ctx, args[..n], None, style);
      var a := ArgumentAttribute(ctx, args[n], None, style);
      var r := ArgumentsAttributes(ctx, args, None, style);
      AttributeIffAccepted(ctx, args[n], None, style);
      assert r == init + [a.value];
      forall j | 0 <= j < |args|
        ensures Some(r[j]) == ArgumentAttribute(ctx, args[j], None, style)
      {
        if j < n {
          assert r[j] == init[j] && args[..n][j] == args[j];
        }
      }
    }
  }

  /** With any filter, the attributes written are those of the accepted
    * arguments: never more than there are arguments, and each an
    * attribute of the requested style. */
  lemma {:induction false} FilteredWritesAccepted(ctx: Context, args: seq<Argument>, filter: Option<seq<byte> -> bool>,
                                                  style: AttributeStyle)
    requires ArgumentsWithin(args, ctx.source)
    ensures var r := ArgumentsAttributes(ctx, args, filter, style);
      |r| <= |args| && forall e | e in r :: e.WriteAttribute? && e.style == style && Accepts(filter, e.name)
    decreases |args|
  {
    if args != [] {
      var n := |args| - 1;
      ArgumentsWithinPrefix(args, ctx.source, n);
      FilteredWritesAccepted(ctx, args[..n], filter, style);
      AttributeIffAccepted(ctx, args[n], filter, style);
      var init := ArgumentsAttributes(ctx, args[..n], filter, style);
      var a := ArgumentAttribute(ctx, args[n], filter, style);
      var r := ArgumentsAttributes(ctx, args, filter, style);
      assert r == init + (if a.Some? then [a.value] else []);
      forall e | e in r
        ensures e.WriteAttribute? && e.style == style && Accepts(filter, e.name)
      {
        if e !in init {
          assert e == a.value;
        }
      }
    }
  }
}
