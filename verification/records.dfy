/** Operating-hour ("horímetro") records and the validation that builds them.

    Readings are counted in hundredths of an hour: the form accepts
    non-negative numbers with two decimals, so a reading of 12.5 h is 1250.
    Rounding a difference of two such readings to two decimals is then exact.
 */
module Records {

  /** An amount of hours, in hundredths of an hour. */
  type Hundredths = nat

  /** One row of the table: Data, Operador, Frota, Horimetro Inicial,
      Horimetro Final, Horas Trabalhadas, in the order of the columns. */
  datatype Record = Record(
    date: string,
    operator: string,
    fleet: string,
    initial: Hundredths,
    final: Hundredths,
    worked: Hundredths)

  /** The column names of the table, in order. */
  const Columns: seq<string> :=
    ["Data", "Operador", "Frota", "Horimetro Inicial", "Horimetro Final", "Horas Trabalhadas"]

  /** The fleet numbers the form offers. */
  const FleetChoices: set<string> := {"230", "231", "232", "233"}

  /** A stored record keeps the invariant of the table: its worked hours are
      the difference of its two readings, which is never negative. */
  predicate WellFormed(r: Record) {
    r.initial <= r.final && r.initial + r.worked == r.final
  }

  /** Why a submission is turned down. */
  datatype Rejection =
    | FinalBelowInitial   // the final reading is below the initial one
    | MissingOperator     // the operator name is empty or only whitespace

  datatype Outcome = Accepted(record: Record) | Rejected(reason: Rejection)

  /** The characters Python's str.strip() removes when called without
      arguments: the Unicode whitespace characters. */
  predicate IsSpace(c: char) {
    c in {' ', '\t', '\n', '\U{0B}', '\U{0C}', '\r', '\U{1C}', '\U{1D}', '\U{1E}', '\U{1F}',
          '\U{85}', '\U{A0}', '\U{1680}', '\U{2000}', '\U{2001}', '\U{2002}', '\U{2003}',
          '\U{2004}', '\U{2005}', '\U{2006}', '\U{2007}', '\U{2008}', '\U{2009}', '\U{200A}',
          '\U{2028}', '\U{2029}', '\U{202F}', '\U{205F}', '\U{3000}'}
  }

  /** Every character of `s` is whitespace (the empty string included). */
  predicate IsBlank(s: string) {
    forall i :: 0 <= i < |s| ==> IsSpace(s[i])
  }

  /** Removes leading whitespace: what is left is a suffix of `s` that is
      empty or starts with a non-space, and all that was cut is whitespace. */
  function TrimStart(s: string): (r: string)
    ensures |r| <= |s| && r == s[|s| - |r|..]
    ensures IsBlank(s[..|s| - |r|])
    ensures r == [] || !IsSpace(r[0])
  {
    if s != [] && IsSpace(s[0]) then TrimStart(s[1..]) else s
  }

  /** Removes trailing whitespace: what is left is a prefix of `s` that is
      empty or ends with a non-space, and all that was cut is whitespace. */
  function TrimEnd(s: string): (r: string)
    ensures |r| <= |s| && r == s[..|r|]
    ensures IsBlank(s[|r|..])
    ensures r == [] || !IsSpace(r[|r| - 1])
  {
    if s != [] && IsSpace(s[|s| - 1]) then TrimEnd(s[..|s| - 1]) else s
  }

  /** Python's str.strip() without arguments. */
  function Strip(s: string): string {
    TrimEnd(TrimStart(s))
  }

  /** Stripping a name leaves nothing exactly when the name is blank. */
  lemma StripEmptyIffBlank(s: string)
    ensures Strip(s) == [] <==> IsBlank(s)
  {
  }

  /** The submission handler's decision. The reading check runs first, so
      it wins when the operator name is blank as well; then a blank name is
      refused; otherwise the six-field record is built with the worked hours
      final - initial, which rounding to two decimals leaves unchanged. */
  function Validate(date: string, operator: string, fleet: string, initial: Hundredths, final: Hundredths): (o: Outcome)
    ensures o == Rejected(FinalBelowInitial) <==> final < initial
    ensures o == Rejected(MissingOperator) <==> initial <= final && IsBlank(operator)
    ensures o.Accepted? <==> initial <= final && !IsBlank(operator)
    ensures o.Accepted? ==> WellFormed(o.record)
    ensures o.Accepted? ==>
      o.record.date == date && o.record.operator == operator && o.record.fleet == fleet &&
      o.record.initial == initial && o.record.final == final
  {
    StripEmptyIffBlank(operator);
    if final < initial then Rejected(FinalBelowInitial)
    else if Strip(operator) == "" then Rejected(MissingOperator)
    else Accepted(Record(date, operator, fleet, initial, final, final - initial))
  }
}
