/*
 * Highlight vocabulary shared by the highlighters and the annotated text
 * buffer: `Highlight_Type` and `Highlight_Options` from
 * include/mmml/highlight/highlight.hpp, and `Annotation_Span`, a typed
 * range `[begin, begin + length)` of some text.
 */
module Highlight {
  import opened Options
  import opened Instructions

  /** `Highlight_Type`, in declaration order, followed by `Symbol`: the
    * markup highlighter emits a `symbol` for `=` and `,`, an enumerator
    * that the header does not declare (it belongs to the newer highlight
    * type header, which is not part of this model). */
  datatype HighlightType =
    | Attribute
    | Comment
    | CommentDelimiter
    | Deletion
    | Identifier
    | Insertion
    | Keyword
    | KeywordControl
    | KeywordType
    | KeywordBoolean
    | KeywordConstant
    | Meta
    | Number
    | SymbolOther
    | SymbolNormal
    | SymbolImportant
    | String
    | StringEscape
    | Tag
    | Symbol

  /** `Highlight_Options`; both flags default to false. */
  datatype HighlightOptions = HighlightOptions(coalescing: bool, strict: bool)

  const DEFAULT_OPTIONS := HighlightOptions(false, false)

  /** `Annotation_Span<T>`: `length` bytes from `begin`, annotated with `value`. */
  datatype Span<T> = Span(begin: nat, length: nat, value: T)
  {
    /** `end()`: one past the last byte covered. */
    function End(): nat { begin + length }

    predicate Covers(x: nat) { begin <= x < End() }
  }

  type HighlightSpan = Span<HighlightType>

  /** Spans that are ascending and do not overlap. */
  predicate Ascending<T>(spans: seq<Span<T>>)
  {
    forall k | 0 <= k < |spans| - 1 :: spans[k].End() <= spans[k + 1].begin
  }

  /** The annotation that `spans` give the byte at `x`: that of the last
    * span covering it, or none. */
  function AnnotationAt<T>(spans: seq<Span<T>>, x: nat): Option<T>
  {
    if spans == [] then None
    else if spans[|spans| - 1].Covers(x) then Some(spans[|spans| - 1].value)
    else AnnotationAt(spans[..|spans| - 1], x)
  }

  /** Appending one span annotates exactly the bytes it covers; the
    * others keep their annotation. */
  lemma AnnotationAtSnoc<T>(spans: seq<Span<T>>, s: Span<T>, x: nat)
    ensures AnnotationAt(spans + [s], x) == if s.Covers(x) then Some(s.value) else AnnotationAt(spans, x)
  {
    assert (spans + [s])[..|spans|] == spans;
  }

  /** Of ascending spans, none covers a byte at or past the end of the last one. */
  lemma {:induction false} AnnotationAtPastEnd<T>(spans: seq<Span<T>>, x: nat)
    requires Ascending(spans)
    requires spans != [] && spans[|spans| - 1].End() <= x
    ensures AnnotationAt(spans, x) == None
    decreases |spans|
  {
    var init := spans[..|spans| - 1];
    if init != [] {
      assert init[|init| - 1] == spans[|spans| - 2];
      AnnotationAtPastEnd(init, x);
    }
  }
}
