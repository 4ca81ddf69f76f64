/**
 * The shift template record: a recurring shift given by its start offset
 * from midnight, its duration and the weekdays on which it runs.
 */
module Shifts {
  import opened Wrappers

  /** Stand-in for the UUID primary key of a row. */
  type Id = nat

  const SecondsPerDay: int := 86400

  /** Field defaults of the record. */
  const DefaultSecondsSinceMidnight: int := 0
  const DefaultDurationSeconds: int := 3600

  /**
   * A shift template. `days` holds weekday strings, "0" for Sunday up to
   * "6" for Saturday; the record itself does not check their contents.
   */
  datatype Shift = Shift(
    id: Id,
    secondsSinceMidnight: int,
    durationSeconds: int,
    days: seq<string>,
    description: string)

  /** The type-level bounds of the record: a non-negative start, a positive duration. */
  predicate ValidShift(s: Shift)
  {
    s.secondsSinceMidnight >= 0 && s.durationSeconds > 0
  }

  datatype FieldError = NegativeSecondsSinceMidnight | NonPositiveDuration

  /**
   * Builds a shift from keyword arguments; an omitted argument (None) takes
   * the field's default. Construction is refused when a bound is violated.
   */
  function NewShift(
    id: Id,
    secondsSinceMidnight: Option<int>,
    durationSeconds: Option<int>,
    days: Option<seq<string>>,
    description: Option<string>): (r: Result<Shift, FieldError>)
    ensures r.Success? ==> ValidShift(r.value) && r.value.id == id
    ensures r.Success? <==>
      (secondsSinceMidnight.None? || secondsSinceMidnight.value >= 0) &&
      (durationSeconds.None? || durationSeconds.value > 0)
    ensures r.Success? ==>
      r.value.secondsSinceMidnight == Given(secondsSinceMidnight, 0) &&
      r.value.durationSeconds == Given(durationSeconds, 3600) &&
      r.value.days == Given(days, []) &&
      r.value.description == Given(description, "")
  {
    var start := Given(secondsSinceMidnight, DefaultSecondsSinceMidnight);
    var duration := Given(durationSeconds, DefaultDurationSeconds);
    if start < 0 then Failure(NegativeSecondsSinceMidnight)
    else if duration <= 0 then Failure(NonPositiveDuration)
    else Success(Shift(id, start, duration, Given(days, []), Given(description, "")))
  }

  /** The value of an optional keyword argument, or the default when it is omitted. */
  function Given<T>(o: Option<T>, default: T): (v: T)
  {
    match o
    case Some(v) => v
    case None => default
  }

  /** The boundary cases of the record's field checks. */
  lemma NewShiftBoundaries(id: Id)
    ensures NewShift(id, Some(-1), None, None, None) == Failure(NegativeSecondsSinceMidnight)
    ensures NewShift(id, Some(0), None, None, None).Success?
    ensures NewShift(id, Some(86399), None, None, None).Success?
    ensures NewShift(id, None, Some(0), None, None) == Failure(NonPositiveDuration)
    ensures NewShift(id, None, Some(-1), None, None) == Failure(NonPositiveDuration)
    ensures NewShift(id, None, Some(86400), None, None).Success?
    ensures NewShift(id, None, None, None, None) == Success(Shift(id, 0, 3600, [], ""))
  {
  }

  // ---------------------------------------------------------------------
  // Weekday strings. The constraint generator turns each weekday string into
  // a number with Python's int(); ParseInt models that conversion for an
  // optional sign followed by ASCII decimal digits.
  // ---------------------------------------------------------------------

  predicate IsDigit(c: char)
  {
    '0' <= c <= '9'
  }

  predicate AllDigits(s: string)
  {
    forall i :: 0 <= i < |s| ==> IsDigit(s[i])
  }

  /** Value of a string of decimal digits, most significant digit first. */
  function DigitsValue(s: string): (v: nat)
    requires AllDigits(s)
  {
    if s == [] then 0
    else DigitsValue(s[..|s| - 1]) * 10 + (s[|s| - 1] as int - '0' as int)
  }

  /** Python int() on a string, restricted to `[+-]?[0-9]+`; None stands for ValueError. */
  function ParseInt(s: string): (r: Option<int>)
  {
    if |s| > 0 && (s[0] == '-' || s[0] == '+') then
      var digits := s[1..];
      if |digits| > 0 && AllDigits(digits) then
        var v: int := DigitsValue(digits);
        Some(if s[0] == '-' then -v else v)
      else None
    else if |s| > 0 && AllDigits(s) then Some(DigitsValue(s))
    else None
  }

  /** Decimal rendering of a natural number, as str() gives it. */
  function DecimalString(n: nat): (s: string)
    ensures |s| > 0 && AllDigits(s)
  {
    if n < 10 then [('0' as int + n) as char]
    else DecimalString(n / 10) + [('0' as int + n % 10) as char]
  }

  /** Reading back a rendered number gives the number. */
  lemma {:induction false} DigitsRoundTrip(n: nat)
    ensures DigitsValue(DecimalString(n)) == n
  {
    var s := DecimalString(n);
    if n >= 10 {
      DigitsRoundTrip(n / 10);
      assert s[..|s| - 1] == DecimalString(n / 10);
    }
  }

  /** int(str(n)) == n, so the weekday strings "0" .. "6" denote 0 .. 6. */
  lemma ParseDecimalString(n: nat)
    ensures ParseInt(DecimalString(n)) == Some(n)
  {
    DigitsRoundTrip(n);
  }

  /** The weekday names used by the record: "0" is Sunday, "6" is Saturday. */
  lemma WeekdayStrings()
    ensures ParseInt("0") == Some(0) && ParseInt("6") == Some(6)
    ensures DecimalString(0) == "0" && DecimalString(6) == "6"
    ensures ParseInt("") == None && ParseInt("Mon") == None && ParseInt("-1") == Some(-1)
  {
    ParseDecimalString(0);
    ParseDecimalString(6);
    assert "-1"[1..] == "1";
    assert DigitsValue("1") == DigitsValue("") * 10 + 1;
  }
}
