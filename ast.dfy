/*
 * The syntax tree of a document, include/mmml/ast.hpp, with the node
 * constructors of src/main/cpp/parse.cpp.  Nodes refer to the source by
 * spans; only `Generated` content owns its bytes.
 */
module Ast {
  import opened Chars
  import opened DirectiveKinds

  /** `Source_Span`: `length` bytes starting at `begin`. */
  datatype Span = Span(begin: nat, length: nat)
  {
    predicate IsEmpty() { length == 0 }
    function End(): nat { begin + length }
  }

  /** `Generated_Type`. */
  datatype GeneratedType = Plaintext | Html

  /** `Content`, the variant of `Directive`, `Text`, `Escaped` and
    * `Generated`, and `Argument`. */
  datatype Content =
    | DirectiveNode(pos: Span, nameLength: nat, arguments: seq<Argument>, content: seq<Content>)
    | TextNode(pos: Span)
    | EscapedNode(pos: Span)
    | GeneratedNode(data: seq<byte>, kind: GeneratedType, display: Display)

  datatype Argument = Argument(pos: Span, content: seq<Content>, name: Span)

  /** The node types written by the user (everything but `Generated`). */
  predicate IsUserWritten(c: Content)
  {
    !c.GeneratedNode?
  }

  /** A node whose constructor assertion holds: a directive has a name, a
    * text is not empty and an escape spans two bytes. */
  predicate IsWellFormedNode(c: Content)
  {
    match c
    case DirectiveNode(_, nameLength, _, _) => nameLength != 0
    case TextNode(pos) => !pos.IsEmpty()
    case EscapedNode(pos) => pos.length == 2
    case GeneratedNode(_, _, _) => true
  }

  /** `Directive::Directive`, which asserts a non-empty name. */
  function MakeDirective(pos: Span, nameLength: nat, args: seq<Argument>, block: seq<Content>): (c: Content)
    requires nameLength != 0
    ensures IsWellFormedNode(c) && c.DirectiveNode? && c.pos == pos
    ensures c.nameLength == nameLength && c.arguments == args && c.content == block
  {
    DirectiveNode(pos, nameLength, args, block)
  }

  /** `Text::Text`, which asserts a non-empty span. */
  function MakeText(pos: Span): (c: Content)
    requires !pos.IsEmpty()
    ensures IsWellFormedNode(c) && c.TextNode? && c.pos == pos
  {
    TextNode(pos)
  }

  /** `Escaped::Escaped`, which asserts a span of length 2. */
  function MakeEscaped(pos: Span): (c: Content)
    requires pos.length == 2
    ensures IsWellFormedNode(c) && c.EscapedNode? && c.pos == pos
  {
    EscapedNode(pos)
  }

  /** `Generated::Generated`; its accessors give back what it was built
    * from. */
  function MakeGenerated(data: seq<byte>, kind: GeneratedType, display: Display): (c: Content)
    ensures c.GeneratedNode? && IsWellFormedNode(c)
    ensures c.data == data && c.kind == kind && c.display == display && |c.data| == |data|
  {
    GeneratedNode(data, kind, display)
  }

  /** The two `Argument` constructors: without a name span the name is the
    * empty span at the argument's begin. */
  function MakeNamedArgument(pos: Span, name: Span, children: seq<Content>): (a: Argument)
    ensures a.pos == pos && a.name == name && a.content == children
    ensures HasName(a) <==> name.length != 0
  {
    Argument(pos, children, name)
  }

  function MakePositionalArgument(pos: Span, children: seq<Content>): (a: Argument)
    ensures a.pos == pos && a.content == children && !HasName(a)
    ensures a.name == Span(pos.begin, 0)
  {
    Argument(pos, children, Span(pos.begin, 0))
  }

  /** `Argument::has_name`. */
  predicate HasName(a: Argument)
  {
    !a.name.IsEmpty()
  }

  /** `std::u8string_view::substr(pos, count)`: clamps the count to what is
    * left; `pos` past the end would throw. */
  function Substr(s: seq<byte>, pos: nat, count: nat): (r: seq<byte>)
    requires pos <= |s|
    ensures |r| == if count <= |s| - pos then count else |s| - pos
    ensures forall i :: 0 <= i < |r| ==> r[i] == s[pos + i]
  {
    if count <= |s| - pos then s[pos..pos + count] else s[pos..]
  }

  /** `get_source(source)` of a user-written node (and of an argument),
    * which asserts that the span lies within the source. */
  function SpanSource(pos: Span, source: seq<byte>): (r: seq<byte>)
    requires pos.End() <= |source|
    ensures |r| == pos.length && forall i :: 0 <= i < |r| ==> r[i] == source[pos.begin + i]
  {
    Substr(source, pos.begin, pos.length)
  }

  /** `Directive::get_name`: the `name_length` bytes one past the span's
    * begin, skipping the backslash. */
  function DirectiveName(d: Content, source: seq<byte>): (r: seq<byte>)
    requires d.DirectiveNode? && d.pos.begin + 1 <= |source|
    ensures d.pos.begin + 1 + d.nameLength <= |source| ==>
      |r| == d.nameLength && forall i :: 0 <= i < |r| ==> r[i] == source[d.pos.begin + 1 + i]
  {
    Substr(source, d.pos.begin + 1, d.nameLength)
  }

  /** `Argument::get_name`, which asserts the name span lies in the source. */
  function ArgumentNameText(a: Argument, source: seq<byte>): (r: seq<byte>)
    requires a.name.End() <= |source|
    ensures |r| == a.name.length && forall i :: 0 <= i < |r| ==> r[i] == source[a.name.begin + i]
  {
    SpanSource(a.name, source)
  }

  /** `Escaped::get_char_index`. */
  function EscapedCharIndex(e: Content): (i: nat)
    requires e.EscapedNode?
    ensures i == e.pos.begin + 1
  {
    e.pos.begin + 1
  }

  /** `Escaped::get_char`: the source byte after the backslash. */
  function EscapedChar(e: Content, source: seq<byte>): (c: byte)
    requires e.EscapedNode? && e.pos.begin + 1 < |source|
    ensures c == source[EscapedCharIndex(e)]
    ensures e.pos.End() <= |source| && e.pos.length == 2 ==> c == SpanSource(e.pos, source)[1]
  {
    source[EscapedCharIndex(e)]
  }

  /** `ast::get_source_span`: the empty span for `Generated`. */
  function SourceSpan(c: Content): (s: Span)
    ensures IsUserWritten(c) ==> s == c.pos
    ensures !IsUserWritten(c) ==> s == Span(0, 0)
  {
    if c.GeneratedNode? then Span(0, 0) else c.pos
  }

  /** `ast::get_source`: the source text of a user-written node, the empty
    * string for `Generated`. */
  function ContentSource(c: Content, source: seq<byte>): (r: seq<byte>)
    requires IsUserWritten(c) ==> c.pos.End() <= |source|
    ensures !IsUserWritten(c) ==> r == []
    ensures IsUserWritten(c) ==> r == SpanSource(c.pos, source)
    ensures |r| == SourceSpan(c).length
  {
    if c.GeneratedNode? then [] else SpanSource(c.pos, source)
  }

  /** `Visitor_Impl::visit_content_sequence`: the visit of each element in
    * order; `visit` stands for what the overriding `visit` records. */
  function VisitContentSequence<E>(visit: Content -> seq<E>, cs: seq<Content>): seq<E>
  {
    if cs == [] then [] else VisitContentSequence(visit, cs[..|cs| - 1]) + visit(cs[|cs| - 1])
  }

  lemma {:induction false} VisitContentSequenceConcat<E>(visit: Content -> seq<E>, a: seq<Content>, b: seq<Content>)
    ensures VisitContentSequence(visit, a + b) == VisitContentSequence(visit, a) + VisitContentSequence(visit, b)
    decreases |b|
  {
    if b == [] {
      assert a + b == a;
    } else {
      VisitContentSequenceConcat(visit, a, b[..|b| - 1]);
      assert (a + b)[..|a + b| - 1] == a + b[..|b| - 1];
    }
  }

  /** A visitor that records each node it is handed sees every element
    * exactly once, in order. */
  lemma {:induction false} VisitContentSequenceInOrder(cs: seq<Content>)
    ensures VisitContentSequence(c => [c], cs) == cs
    decreases |cs|
  {
    if cs != [] {
      VisitContentSequenceInOrder(cs[..|cs| - 1]);
      assert cs[..|cs| - 1] + [cs[|cs| - 1]] == cs;
    }
  }

  /** Every user-written node of the tree under `c`, in its content and in
    * its arguments, lies within `source`, and so does the name of each
    * directive and the character of each escape: what the accessors of
    * the nodes assert when the rendering code reads them. */
  predicate NodeWithin(c: Content, source: seq<byte>)
    decreases c
  {
    match c
    case TextNode(pos) => pos.End() <= |source|
    case EscapedNode(pos) => pos.End() <= |source| && pos.begin + 1 < |source|
    case GeneratedNode(_, _, _) => true
    case DirectiveNode(pos, _, args, content) =>
      pos.End() <= |source| && pos.begin + 1 <= |source|
      && (forall k | 0 <= k < |content| :: NodeWithin(content[k], source))
      && (forall k | 0 <= k < |args| :: ArgumentWithin(args[k], source))
  }

  /** The name and the content of an argument lie within `source`. */
  predicate ArgumentWithin(a: Argument, source: seq<byte>)
    decreases a
  {
    a.name.End() <= |source| && forall k | 0 <= k < |a.content| :: NodeWithin(a.content[k], source)
  }

  /** Every node of `cs` lies within `source`. */
  predicate NodesWithin(cs: seq<Content>, source: seq<byte>)
  {
    forall k | 0 <= k < |cs| :: NodeWithin(cs[k], source)
  }

  /** A prefix of nodes within the source is within it. */
  lemma NodesWithinPrefix(cs: seq<Content>, source: seq<byte>, n: nat)
    requires NodesWithin(cs, source) && n <= |cs|
    ensures NodesWithin(cs[..n], source)
  {
    assert forall k | 0 <= k < n :: cs[..n][k] == cs[k];
  }

  /** Two sequences within the source are within it in a row. */
  lemma NodesWithinConcat(a: seq<Content>, b: seq<Content>, source: seq<byte>)
    requires NodesWithin(a, source) && NodesWithin(b, source)
    ensures NodesWithin(a + b, source)
  {
    assert forall k | 0 <= k < |a + b| :: (a + b)[k] == if k < |a| then a[k] else b[k - |a|];
  }

  /** A suffix of nodes within the source is within it. */
  lemma NodesWithinSuffix(cs: seq<Content>, source: seq<byte>, n: nat)
    requires NodesWithin(cs, source) && n <= |cs|
    ensures NodesWithin(cs[n..], source)
  {
    assert forall k | 0 <= k < |cs| - n :: cs[n..][k] == cs[n + k];
  }
}
