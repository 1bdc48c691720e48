/*
 * `trim_blank_text_left`, `trim_blank_text_right` and `trim_blank_text` of
 * src/main/cpp/directive_processing.cpp: the span of content with its
 * completely blank text nodes cut off at either end.  The loops shrink a
 * span one node at a time; they are modelled as the recursions they are.
 */
module ContentTrimming {
  import opened Chars
  import opened Ast

  /** A node the trimming drops: a text or a generated node whose bytes are
    * all ASCII blanks. */
  predicate IsBlankText(c: Content, source: seq<byte>)
    requires NodeWithin(c, source)
  {
    match c
    case TextNode(pos) => var t := SpanSource(pos, source); BlankBetween(t, 0, |t|)
    case GeneratedNode(data, _, _) => BlankBetween(data, 0, |data|)
    case _ => false
  }

  /** `trim_blank_text_left`. */
  function TrimBlankTextLeft(cs: seq<Content>, source: seq<byte>): (r: seq<Content>)
    requires NodesWithin(cs, source)
    ensures |r| <= |cs|
    decreases |cs|
  {
    if cs != [] && IsBlankText(cs[0], source) then TrimBlankTextLeft(cs[1..], source) else cs
  }

  /** `trim_blank_text_right`. */
  function TrimBlankTextRight(cs: seq<Content>, source: seq<byte>): (r: seq<Content>)
    requires NodesWithin(cs, source)
    ensures |r| <= |cs|
    decreases |cs|
  {
    if cs != [] && IsBlankText(cs[|cs| - 1], source) then TrimBlankTextRight(cs[..|cs| - 1], source) else cs
  }

  /** `trim_blank_text`: right after left. */
  function TrimBlankText(cs: seq<Content>, source: seq<byte>): seq<Content>
    requires NodesWithin(cs, source)
  {
    var l := TrimBlankTextLeft(cs, source);
    TrimLeftFacts(cs, source);
    TrimBlankTextRight(l, source)
  }

  /** The left trim is a suffix: the nodes it drops are all blank text, and
    * the first node it keeps is not. */
  lemma {:induction false} TrimLeftFacts(cs: seq<Content>, source: seq<byte>)
    requires NodesWithin(cs, source)
    ensures var r := TrimBlankTextLeft(cs, source);
      && r == cs[|cs| - |r|..] && NodesWithin(r, source)
      && (forall k | 0 <= k < |cs| - |r| :: IsBlankText(cs[k], source))
      && (r != [] ==> !IsBlankText(r[0], source))
    decreases |cs|
  {
    if cs != [] && IsBlankText(cs[0], source) {
      NodesWithinSuffix(cs, source, 1);
      TrimLeftFacts(cs[1..], source);
      var r := TrimBlankTextLeft(cs, source);
      assert r == TrimBlankTextLeft(cs[1..], source);
      assert cs[1..][|cs| - 1 - |r|..] == cs[|cs| - |r|..];
      assert forall k | 1 <= k < |cs| - |r| :: cs[k] == cs[1..][k - 1];
    }
  }

  /** The right trim is a prefix: the nodes it drops are all blank text,
    * and the last node it keeps is not. */
  lemma {:induction false} TrimRightFacts(cs: seq<Content>, source: seq<byte>)
    requires NodesWithin(cs, source)
    ensures var r := TrimBlankTextRight(cs, source);
      && r == cs[..|r|] && NodesWithin(r, source)
      && (forall k | |r| <= k < |cs| :: IsBlankText(cs[k], source))
      && (r != [] ==> !IsBlankText(r[|r| - 1], source))
    decreases |cs|
  {
    if cs != [] && IsBlankText(cs[|cs| - 1], source) {
      var n := |cs| - 1;
      NodesWithinPrefix(cs, source, n);
      TrimRightFacts(cs[..n], source);
      var r := TrimBlankTextRight(cs, source);
      assert r == TrimBlankTextRight(cs[..n], source);
      assert cs[..n][..|r|] == cs[..|r|];
      assert forall k | |r| <= k < n :: cs[k] == cs[..n][k];
    }
  }

  /** `trim_blank_text` removes only completely blank text, and only at
    * either end: its result is the slice `cs[b..e]`, every node outside it
    * is blank text, and its first and last nodes are not. */
  lemma TrimBlankTextIsSlice(cs: seq<Content>, source: seq<byte>)
    requires NodesWithin(cs, source)
    ensures var r := TrimBlankText(cs, source);
      var b := |cs| - |TrimBlankTextLeft(cs, source)|;
      && b + |r| <= |cs| && r == cs[b..b + |r|] && NodesWithin(r, source)
      && (forall k | 0 <= k < b :: IsBlankText(cs[k], source))
      && (forall k | b + |r| <= k < |cs| :: IsBlankText(cs[k], source))
      && (r != [] ==> !IsBlankText(r[0], source) && !IsBlankText(r[|r| - 1], source))
  {
    var l := TrimBlankTextLeft(cs, source);
    TrimLeftFacts(cs, source);
    TrimRightFacts(l, source);
    TrimBothSlice(cs, source, l, TrimBlankTextRight(l, source), |cs| - |l|);
  }

  /** A prefix `r` of a suffix `l == cs[b..]` is a slice of `cs`, and the
    * blank nodes at either end carry over. */
  lemma TrimBothSlice(cs: seq<Content>, source: seq<byte>, l: seq<Content>, r: seq<Content>, b: nat)
    requires NodesWithin(cs, source) && b <= |cs| && l == cs[b..] && NodesWithin(l, source)
    requires |r| <= |l| && r == l[..|r|] && NodesWithin(r, source)
    requires forall k | |r| <= k < |l| :: IsBlankText(l[k], source)
    requires l != [] ==> !IsBlankText(l[0], source)
    ensures b + |r| <= |cs| && r == cs[b..b + |r|]
    ensures forall k | b + |r| <= k < |cs| :: IsBlankText(cs[k], source)
    ensures r != [] ==> !IsBlankText(r[0], source)
  {
    forall k | b + |r| <= k < |cs|
      ensures IsBlankText(cs[k], source)
    {
      assert cs[k] == l[k - b];
    }
    assert r != [] ==> r[0] == l[0];
  }

  /** Trimming twice trims nothing more. */
  lemma TrimBlankTextIdempotent(cs: seq<Content>, source: seq<byte>)
    requires NodesWithin(cs, source)
    ensures var r := TrimBlankText(cs, source);
      NodesWithin(r, source) && TrimBlankText(r, source) == r
  {
    TrimBlankTextIsSlice(cs, source);
    var r := TrimBlankText(cs, source);
    assert TrimBlankTextLeft(r, source) == r;
    assert TrimBlankTextRight(r, source) == r;
  }
}
