/*
 * Diagnostic levels, include/mmml/diagnostic.hpp.
 *
 * `Diagnostic_Type` is a scoped enumeration over `Default_Underlying`
 * (`unsigned char`, include/mmml/fwd.hpp); like any such enumeration it
 * can hold every value of its underlying type, not only the named ones,
 * so it is modelled as that byte-sized integer with named constants.
 */
module Diagnostics {

  /** `Default_Underlying`. */
  newtype Underlying = x: int | 0 <= x < 256

  type DiagnosticType = Underlying

  /** `all` is an alias for `debug`. */
  const ALL: DiagnosticType := 0
  const DEBUG: DiagnosticType := 0
  const SOFT_WARNING: DiagnosticType := 1
  const WARNING: DiagnosticType := 2
  const ERROR: DiagnosticType := 3
  /** Greater than every level that is emitted. */
  const NONE: DiagnosticType := 4

  /** The levels a diagnostic can actually be reported with. */
  predicate IsEmitted(t: DiagnosticType)
  {
    t == DEBUG || t == SOFT_WARNING || t == WARNING || t == ERROR
  }

  datatype Ordering = Less | Equivalent | Greater

  /** `operator<=>`: the strong ordering of the underlying values. */
  function Compare(x: DiagnosticType, y: DiagnosticType): (r: Ordering)
    ensures r == Less <==> x < y
    ensures r == Equivalent <==> x == y
    ensures r == Greater <==> y < x
  {
    if x < y then Less else if x == y then Equivalent else Greater
  }

  /** The named levels, in increasing order; `all` and `debug` coincide. */
  lemma LevelsAscend()
    ensures ALL == DEBUG
    ensures Compare(DEBUG, SOFT_WARNING) == Less && Compare(SOFT_WARNING, WARNING) == Less
    ensures Compare(WARNING, ERROR) == Less && Compare(ERROR, NONE) == Less
  {
  }

  /** `none` exceeds every emitted level, so as a minimum level it
    * silences every diagnostic, errors included. */
  lemma NoneAboveEmitted(t: DiagnosticType)
    requires IsEmitted(t)
    ensures Compare(t, NONE) == Less
  {
  }

  /** A diagnostic: its level, the source span it concerns and its message. */
  datatype Diagnostic = Diagnostic(kind: DiagnosticType, begin: nat, length: nat, message: seq<char>)
}
