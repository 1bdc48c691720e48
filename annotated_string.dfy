/*
 * `Basic_Annotated_String` and its `Scoped_Builder`,
 * include/mmml/util/annotated_string.hpp: a text buffer together with a
 * list of typed spans over it, both grown by appending.
 *
 * The annotation type is a type parameter `A`; the character type is
 * `char`.  Integers are printed by `to_characters`, modelled by
 * `Chars.ToCharacters` (decimal, a `-` before negative numbers).
 */
module AnnotatedStrings {
  import opened Options
  import opened Chars
  import opened Highlight
  import opened Instructions

  /** `Sign_Policy`. */
  datatype SignPolicy =
    | NegativeOnly  // print only `-`, never `+`
    | Always        // print `+` for positive numbers and zero
    | NonZero       // print `+` only for numbers other than zero

  /** Whether `append_integer` prints a `+` in front of `x`. */
  predicate PrintsPlus(x: int, signs: SignPolicy)
  {
    (signs == Always && x >= 0) || (signs == NonZero && x > 0)
  }

  /** What `append_integer` appends: the optional `+`, then the digits. */
  function IntegerText(x: int, signs: SignPolicy): (s: seq<char>)
    ensures |s| >= 1
    ensures s[0] == '+' <==> PrintsPlus(x, signs)
    ensures s[0] == '-' <==> x < 0
  {
    (if PrintsPlus(x, signs) then "+" else "") + ToCharacters(x)
  }

  /** A sign is printed exactly for negative numbers, for every number
    * but the negative ones under `always`, and for the positive ones
    * under `nonzero`; `negative_only` never prints `+`. */
  lemma SignPolicies(x: int)
    ensures IntegerText(x, NegativeOnly) == ToCharacters(x)
    ensures IntegerText(x, Always)[0] in "+-"
    ensures IntegerText(x, NonZero)[0] in "+-" <==> x != 0
  {
    if x == 0 {
      assert ToCharacters(0) == "0" by { assert ToDecimal(0) == "0"; }
    }
  }

  /** The spans all lie within the text. */
  predicate SpansWithin<A>(text: seq<char>, spans: seq<Span<A>>)
  {
    forall k | 0 <= k < |spans| :: spans[k].End() <= |text|
  }

  /** `Annotated_String_Length`. */
  datatype AnnotatedStringLength = AnnotatedStringLength(textLength: nat, spanCount: nat)

  /** `get_text(span)`: `substr(begin, length)` of the text, which throws
    * `out_of_range` when `begin` is past its end and is cut short at it. */
  function TextOf<A>(text: seq<char>, span: Span<A>): (r: Option<seq<char>>)
    ensures r.None? <==> span.begin > |text|
    ensures r.Some? ==> (|r.value| <= span.length && span.begin + |r.value| <= |text|
                         && r.value == text[span.begin..span.begin + |r.value|])
    ensures r.Some? && span.End() <= |text| ==> |r.value| == span.length
  {
    if span.begin > |text| then None
    else if span.End() <= |text| then Some(text[span.begin..span.End()])
    else Some(text[span.begin..])
  }

  class AnnotatedString<A(0)> {
    var text: seq<char>
    var spans: seq<Span<A>>

    constructor ()
      ensures text == [] && spans == []
    {
      text := [];
      spans := [];
    }

    function GetLength(): (r: AnnotatedStringLength)
      reads this
      ensures r.textLength == |text| && r.spanCount == |spans|
    {
      AnnotatedStringLength(|text|, |spans|)
    }

    function GetText(span: Span<A>): Option<seq<char>>
      reads this
    {
      TextOf(text, span)
    }

    /** `resize`: `vector::resize` of both lists; added characters are
      * `'\0'` and added spans value-initialised (empty, at 0). */
    method Resize(length: AnnotatedStringLength)
      modifies this
      ensures |text| == length.textLength && |spans| == length.spanCount
      ensures length.textLength <= |old(text)| ==> text == old(text)[..length.textLength]
      ensures length.textLength > |old(text)| ==>
        text[..|old(text)|] == old(text) && forall k | |old(text)| <= k < |text| :: text[k] == '\0'
      ensures length.spanCount <= |old(spans)| ==> spans == old(spans)[..length.spanCount]
      ensures length.spanCount > |old(spans)| ==>
        spans[..|old(spans)|] == old(spans)
        && forall k | |old(spans)| <= k < |spans| :: spans[k].begin == 0 && spans[k].length == 0
    {
      if length.textLength <= |text| {
        text := text[..length.textLength];
      } else {
        text := text + Repeat(length.textLength - |text|, '\0');
      }
      if length.spanCount <= |spans| {
        spans := spans[..length.spanCount];
      } else {
        var t: A := *;
        spans := spans + Repeat(length.spanCount - |spans|, Span(0, 0, t));
      }
    }

    method Clear()
      modifies this
      ensures text == [] && spans == []
    {
      text := [];
      spans := [];
    }

    /** The untyped `append` of a string. */
    method Append(s: seq<char>)
      modifies this
      ensures text == old(text) + s && spans == old(spans)
    {
      text := text + s;
    }

    /** The untyped `append` of `amount` copies of `c` (one copy is the
      * `append(char)` overload). */
    method AppendRepeated(amount: nat, c: char)
      modifies this
      ensures text == old(text) + Repeat(amount, c) && spans == old(spans)
    {
      text := text + Repeat(amount, c);
    }

    /** The typed `append` of a string, which asserts that it is not empty;
      * a single character is the string of length 1. */
    method AppendTyped(s: seq<char>, t: A)
      requires s != []
      modifies this
      ensures text == old(text) + s
      ensures spans == old(spans) + [Span(|old(text)|, |s|, t)]
    {
      spans := spans + [Span(|text|, |s|, t)];
      text := text + s;
    }

    /** `append_integer` and its typed overload (`t` present): the digits,
      * after a `+` when the policy asks for one, under one span when typed. */
    method AppendInteger(x: int, signs: SignPolicy, t: Option<A>)
      modifies this
      ensures text == old(text) + IntegerText(x, signs)
      ensures spans == old(spans) + if t.Some? then [Span(|old(text)|, |IntegerText(x, signs)|, t.value)] else []
    {
      var plus := (signs == Always && x >= 0) || (signs == NonZero && x > 0);
      AppendDigits(ToCharacters(x), plus, t);
    }

    /** `append_digits`. */
    method AppendDigits(digits: seq<char>, plus: bool, t: Option<A>)
      modifies this
      ensures text == old(text) + (if plus then "+" else "") + digits
      ensures spans == old(spans) + if t.Some? then [Span(|old(text)|, |digits| + (if plus then 1 else 0), t.value)] else []
    {
      var begin := |text|;
      var prefixLength := 0;
      if plus {
        text := text + "+";
        prefixLength := 1;
      }
      Append(digits);
      if t.Some? {
        spans := spans + [Span(begin, |digits| + prefixLength, t.value)];
      }
    }
  }

  /** `n` copies of `c`. */
  function Repeat<T>(n: nat, c: T): (r: seq<T>)
    ensures |r| == n && forall k | 0 <= k < n :: r[k] == c
  {
    if n == 0 then [] else Repeat(n - 1, c) + [c]
  }

  /** Every append keeps the spans within the text. */
  lemma AppendKeepsSpansWithin<A>(text: seq<char>, spans: seq<Span<A>>, s: seq<char>, t: A)
    requires SpansWithin(text, spans)
    ensures SpansWithin(text + s, spans)
    ensures SpansWithin(text + s, spans + [Span(|text|, |s|, t)])
  {
  }

  /** `Scoped_Builder`: records the text length at its creation and, when
    * it ends (its destructor), covers everything appended since with one
    * span of its type, or nothing if nothing was appended. */
  class ScopedBuilder<A(0)> {
    const owner: AnnotatedString<A>
    const initialSize: nat
    const kind: A

    constructor (owner: AnnotatedString<A>, kind: A)
      ensures this.owner == owner && initialSize == |owner.text| && this.kind == kind
    {
      this.owner := owner;
      initialSize := |owner.text|;
      this.kind := kind;
    }

    method Append(s: seq<char>)
      modifies owner
      ensures owner.text == old(owner.text) + s && owner.spans == old(owner.spans)
    {
      owner.Append(s);
    }

    method AppendRepeated(amount: nat, c: char)
      modifies owner
      ensures owner.text == old(owner.text) + Repeat(amount, c) && owner.spans == old(owner.spans)
    {
      owner.AppendRepeated(amount, c);
    }

    method AppendInteger(x: int, signs: SignPolicy)
      modifies owner
      ensures owner.text == old(owner.text) + IntegerText(x, signs) && owner.spans == old(owner.spans)
    {
      owner.AppendInteger(x, signs, None);
    }

    /** The destructor, which asserts the text did not shrink: `crashed`
      * tells whether that assertion failed, and then nothing changes. */
    method End() returns (crashed: bool)
      modifies owner
      ensures crashed <==> |owner.text| < initialSize
      ensures owner.text == old(owner.text)
      ensures owner.spans == old(owner.spans) +
        if crashed || |owner.text| == initialSize then [] else [Span(initialSize, |owner.text| - initialSize, kind)]
    {
      if |owner.text| < initialSize {
        return true;
      }
      crashed := false;
      var length := |owner.text| - initialSize;
      if length != 0 {
        owner.spans := owner.spans + [Span(initialSize, length, kind)];
      }
    }
  }
}
