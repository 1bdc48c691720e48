/*
 * Services the compiler consults, include/mmml/services.hpp: syntax
 * highlighters and the severity filter of loggers.
 *
 * A syntax highlighter is foreign code (µlight); it is modelled as a
 * function from code and a language hint to either the spans it produces
 * or an error, and `Apply` is the virtual `operator()` of the base class,
 * which appends those spans to `out`.
 */
module Services {
  import opened Options
  import opened Chars
  import opened Highlight
  import opened Instructions
  import opened Results
  import opened Diagnostics

  /** `Syntax_Highlight_Error`. */
  datatype SyntaxHighlightError = UnsupportedLanguage | BadCode | Other

  /** What a highlighter computes for `code` with the language hint `language`. */
  type HighlighterFunction = (seq<byte>, seq<char>) -> Result<seq<HighlightSpan>, SyntaxHighlightError>

  /** The failure contract of `Syntax_Highlighter::operator()`: spans are
    * only ever appended to `out`, and nothing is appended when the result
    * is a failure. */
  predicate KeepsContract(before: seq<HighlightSpan>, after: seq<HighlightSpan>, r: VoidResult<SyntaxHighlightError>)
  {
    |before| <= |after| && after[..|before|] == before
    && (!r.HasValue() ==> after == before)
  }

  /** `operator()`: appends the spans that `h` produces to `out`. */
  function Apply(h: HighlighterFunction, out: seq<HighlightSpan>, code: seq<byte>, language: seq<char>)
    : (r: (seq<HighlightSpan>, VoidResult<SyntaxHighlightError>))
    ensures KeepsContract(out, r.0, r.1)
    ensures r.1.HasValue() <==> h(code, language).Success?
    ensures !r.1.HasValue() ==> r.1.error == h(code, language).error
  {
    match h(code, language)
    case Success(spans) => (out + spans, Ok)
    case Failure(e) => (out, Err(e))
  }

  /** `No_Support_Syntax_Highlighter::operator()`. */
  function NoSupport(code: seq<byte>, language: seq<char>): Result<seq<HighlightSpan>, SyntaxHighlightError>
  {
    Failure(UnsupportedLanguage)
  }

  /** `get_supported_languages` of the no-support highlighter: none. */
  const NO_SUPPORT_LANGUAGES: seq<seq<char>> := []

  /** `match_supported_language` of the no-support highlighter: the
    * default-constructed `Distant` (include/mmml/util/typo.hpp is not part
    * of this model), modelled as no match. */
  function NoSupportMatch(language: seq<char>): Option<seq<char>>
  {
    None
  }

  /** The no-support highlighter fails on every input with
    * `unsupported_language`, leaves `out` as it was, and matches no
    * language. */
  lemma NoSupportNeverHighlights(out: seq<HighlightSpan>, code: seq<byte>, language: seq<char>)
    ensures Apply(NoSupport, out, code, language) == (out, Err(UnsupportedLanguage))
    ensures language !in NO_SUPPORT_LANGUAGES
    ensures NoSupportMatch(language) == None
  {
  }

  /** `Severity`, the level a logger filters by (its header is not part of
    * this model; it is modelled as the diagnostic level). */
  type Severity = DiagnosticType

  /** `Logger`: a minimum severity and a sink; the sink is the virtual
    * `operator()`, of which only `Ignorant_Logger`'s is defined. */
  class Logger {
    var minSeverity: Severity
    /** Whether this is the `Ignorant_Logger`, whose sink discards. */
    const ignorant: bool
    /** What the sink of a derived logger received, in order; the derived
      * loggers other than `Ignorant_Logger` are not part of this model. */
    var received: seq<Diagnostic>

    /** The constructor, which goes through `set_min_severity`. */
    constructor (minSeverity: Severity, ignorant: bool)
      requires minSeverity <= NONE
      ensures this.minSeverity == minSeverity && this.ignorant == ignorant && received == []
    {
      this.minSeverity := minSeverity;
      this.ignorant := ignorant;
      received := [];
    }

    /** `ignorant_logger`: minimum severity `none`. */
    constructor Ignorant()
      ensures minSeverity == NONE && ignorant && received == []
    {
      minSeverity := NONE;
      ignorant := true;
      received := [];
    }

    function GetMinSeverity(): Severity
      reads this
    {
      minSeverity
    }

    /** `set_min_severity` asserts that `severity <= none`; `crashed`
      * tells whether that assertion failed, and then nothing changes. */
    method SetMinSeverity(severity: Severity) returns (crashed: bool)
      modifies this
      ensures crashed <==> severity > NONE
      ensures minSeverity == (if crashed then old(minSeverity) else severity) && received == old(received)
    {
      if severity > NONE {
        return true;
      }
      crashed := false;
      minSeverity := severity;
    }

    predicate CanLog(severity: Severity)
      reads this
    {
      severity >= minSeverity
    }

    /** `operator()`: an ignorant logger discards the diagnostic. */
    method Log(d: Diagnostic)
      modifies this
      ensures minSeverity == old(minSeverity)
      ensures received == if ignorant then old(received) else old(received) + [d]
    {
      if !ignorant {
        received := received + [d];
      }
    }
  }

  /** `can_log` admits exactly the levels at or above the minimum; a
    * minimum of `none` admits no emitted level. */
  lemma CanLogByLevel(min: Severity, s: Severity)
    requires min <= NONE
    ensures s >= min <==> Diagnostics.Compare(s, min) != Diagnostics.Less
    ensures min == NONE && IsEmitted(s) ==> s < min
  {
  }
}
