/*
 * The modes and states of content processing, declared alike in
 * include/cowel/directive_processing.hpp and the older
 * include/mmml/directive_processing.hpp.
 */
module ProcessingModes {

  /** `To_Plaintext_Mode`. */
  datatype PlaintextMode = Normal | NoSideEffects | TrimmedPlaintext

  /** `To_Plaintext_Status`, in declaration order. */
  datatype PlaintextStatus = Ok | SomeIgnored | Error
  {
    /** The underlying value of the enumerator. */
    function Rank(): nat
    {
      match this
      case Ok => 0
      case SomeIgnored => 1
      case Error => 2
    }
  }

  /** `To_Plaintext_Status(std::max(int(a), int(b)))`. */
  function MaxStatus(a: PlaintextStatus, b: PlaintextStatus): (r: PlaintextStatus)
    ensures r == a || r == b
    ensures r.Rank() >= a.Rank() && r.Rank() >= b.Rank()
  {
    if a.Rank() >= b.Rank() then a else b
  }

  /** The enumerators are ranked by declaration, so the max ranking is the
    * max of the ranks; it is a commutative and associative fold with `Ok`
    * as identity and `Error` absorbing. */
  lemma MaxStatusAlgebra(a: PlaintextStatus, b: PlaintextStatus, c: PlaintextStatus)
    ensures MaxStatus(a, b).Rank() == if a.Rank() >= b.Rank() then a.Rank() else b.Rank()
    ensures MaxStatus(a, b) == MaxStatus(b, a)
    ensures MaxStatus(MaxStatus(a, b), c) == MaxStatus(a, MaxStatus(b, c))
    ensures MaxStatus(Ok, a) == a && MaxStatus(Error, a) == Error
    ensures MaxStatus(a, b) == Error <==> a == Error || b == Error
    ensures MaxStatus(a, b) == Ok <==> a == Ok && b == Ok
  {
  }

  /** The rank tells the enumerators apart. */
  lemma RankInjective(a: PlaintextStatus, b: PlaintextStatus)
    ensures a.Rank() == b.Rank() ==> a == b
  {
  }

  /** `To_HTML_Mode`. */
  datatype HtmlMode = Direct | Paragraphs | Trimmed | ParagraphsTrimmed

  /** `to_html_mode_is_trimmed`. */
  predicate IsTrimmed(mode: HtmlMode)
  {
    mode == Trimmed || mode == ParagraphsTrimmed
  }

  /** `to_html_mode_is_paragraphed`. */
  predicate IsParagraphed(mode: HtmlMode)
  {
    mode == Paragraphs || mode == ParagraphsTrimmed
  }

  /** The mode with the given two properties. */
  function ModeOf(trimmed: bool, paragraphed: bool): (m: HtmlMode)
    ensures IsTrimmed(m) == trimmed && IsParagraphed(m) == paragraphed
  {
    if trimmed && paragraphed then ParagraphsTrimmed
    else if trimmed then Trimmed
    else if paragraphed then Paragraphs
    else Direct
  }

  /** The two predicates are independent and together tell every mode
    * apart: `direct` has neither property, `trimmed` and `paragraphs` one
    * each, `paragraphs_trimmed` both. */
  lemma ModePredicatesClassify(mode: HtmlMode)
    ensures ModeOf(IsTrimmed(mode), IsParagraphed(mode)) == mode
    ensures mode == Direct <==> !IsTrimmed(mode) && !IsParagraphed(mode)
  {
  }

  /** `Paragraphs_State`: whether a `<p>` is open. */
  datatype ParagraphsState = Outside | Inside

  /** The default arguments of `to_plaintext` and `to_html`. */
  const DEFAULT_PLAINTEXT_MODE: PlaintextMode := Normal
  const DEFAULT_HTML_MODE: HtmlMode := Direct
  const DEFAULT_PARAGRAPHS_STATE: ParagraphsState := Outside

  /** The defaults do no trimming and no paragraph splitting, and start
    * outside a paragraph. */
  lemma Defaults()
    ensures !IsTrimmed(DEFAULT_HTML_MODE) && !IsParagraphed(DEFAULT_HTML_MODE)
    ensures DEFAULT_PLAINTEXT_MODE == Normal && DEFAULT_PARAGRAPHS_STATE == Outside
  {
  }
}
