/** How IntegerField and StringField turn a raw answer into a canonical value
    (src/fields.py, IntegerField and StringField). */
module Coercion {
  import opened Errors
  import opened Text

  /** A raw answer as a caller hands it over: a string, a native integer, a
      native fractional number, or None. */
  datatype Raw = Str(text: string) | Int(integer: int) | Frac(number: real) | NoneValue

  /** Python truthiness of a raw answer: '', 0, 0.0 and None are false. */
  predicate Falsy(r: Raw)
  {
    match r
    case Str(s) => s == []
    case Int(i) => i == 0
    case Frac(x) => x == 0.0
    case NoneValue => true
  }

  /** int(x) for a native number: truncation toward zero. */
  function Truncate(x: real): (r: int)
    ensures 0.0 <= x ==> 0 <= r && r as real <= x < (r + 1) as real
    ensures x < 0.0 ==> r <= 0 && (r - 1) as real < x <= r as real
  {
    if x >= 0.0 then x.Floor else -((-x).Floor)
  }

  /** Python 2 int(r); None stands for the TypeError or ValueError it raises. */
  function PyInt(r: Raw): Option<int>
  {
    match r
    case Str(s) => ParseInt(s)
    case Int(i) => Some(i)
    case Frac(x) => Some(Truncate(x))
    case NoneValue => None
  }

  /** IntegerField.__init__ converting a bound: None stays unset, anything else
      goes through int(), whose failure escapes as ValueError. */
  function Bound(r: Raw): (b: Result<Option<int>>)
    ensures b.Fail? <==> !r.NoneValue? && PyInt(r).None?
    ensures b.Fail? ==> b.error == ValueError
    ensures b == Ok(None) <==> r.NoneValue?
    ensures b.Ok? && b.value.Some? ==> PyInt(r) == b.value
  {
    if r.NoneValue? then Ok(None)
    else match PyInt(r)
      case None => Fail(ValueError)
      case Some(n) => Ok(Some(n))
  }

  /** _in_min_max_interval: a bound is checked only when it is truthy, so an
      unset bound and a bound of 0 are both skipped. */
  predicate InInterval(min: Option<int>, max: Option<int>, v: int)
  {
    !(min.Some? && min.value != 0 && v < min.value) &&
    !(max.Some? && max.value != 0 && v > max.value)
  }

  /** IntegerField.get_field_value as intended: a value outside the bounds is a
      ValidationError. The code as written differs in one case, modelled by
      IntegerValueAsWritten. */
  function IntegerValue(min: Option<int>, max: Option<int>, raw: Raw): (r: Coerced<int>)
    ensures r.Value? ==> PyInt(raw) == Some(r.value)
    ensures r.Absent? <==> PyInt(raw).None? && Falsy(raw)
    ensures r.Failure? ==> r.error == Validation
  {
    match PyInt(raw)
    case None => if Falsy(raw) then Absent else Failure(Validation)
    case Some(v) => if InInterval(min, max, v) then Value(v) else Failure(Validation)
  }

  /** Each bound is checked on its own: under the intended coercion a parsed
      value is accepted exactly when it is not below a set, non-zero minimum and
      not above a set, non-zero maximum. IntegerAsWrittenAgrees gives the one
      case where the code as written raises TypeError instead. */
  lemma IntegerBounds(min: Option<int>, max: Option<int>, raw: Raw, v: int)
    requires PyInt(raw) == Some(v)
    ensures IntegerValue(min, max, raw) ==
      if (min.Some? && min.value != 0 ==> min.value <= v) && (max.Some? && max.value != 0 ==> v <= max.value)
      then Value(v) else Failure(Validation)
  {
  }

  /** IntegerField.get_field_value as written. The message of the over-maximum
      error formats self.min with %d (src/fields.py:62-63). With no minimum set
      that is '%d' % None, which raises TypeError before the ValidationError
      exists; the TypeError escapes, since it is raised outside the try. */
  function IntegerValueAsWritten(min: Option<int>, max: Option<int>, raw: Raw): (r: Coerced<int>)
    ensures r.Failure? ==> r.error == Validation || r.error == TypeError
    ensures r.Failure? && r.error == TypeError ==> min.None?
  {
    match PyInt(raw)
    case None => if Falsy(raw) then Absent else Failure(Validation)
    case Some(v) =>
      if min.Some? && min.value != 0 && v < min.value then Failure(Validation)
      else if max.Some? && max.value != 0 && v > max.value then
        (if min.None? then Failure(TypeError) else Failure(Validation))
      else Value(v)
  }

  /** The code as written agrees with the intended coercion except when no
      minimum is set and a parsed value exceeds a non-zero maximum; there it
      raises TypeError instead of ValidationError. */
  lemma IntegerAsWrittenAgrees(min: Option<int>, max: Option<int>, raw: Raw)
    ensures var overMax := min.None? && max.Some? && max.value != 0 && PyInt(raw).Some? && PyInt(raw).value > max.value;
      (IntegerValueAsWritten(min, max, raw) == IntegerValue(min, max, raw) <==> !overMax) &&
      (overMax ==> IntegerValueAsWritten(min, max, raw) == Failure(TypeError) &&
                   IntegerValue(min, max, raw) == Failure(Validation))
  {
  }

  /** IntegerField(name, title, None, 10) given 11: the code as written raises
      TypeError, while a minimum of 0, which is skipped just the same, gives the
      ValidationError that is intended. */
  lemma MaxOnlyTypeErrorExample()
    ensures IntegerValueAsWritten(None, Some(10), Int(11)) == Failure(TypeError)
    ensures IntegerValueAsWritten(Some(0), Some(10), Int(11)) == Failure(Validation)
    ensures IntegerValue(None, Some(10), Int(11)) == Failure(Validation)
  {
  }

  /** With non-zero bounds lo and hi, a parsed value is accepted exactly when
      lo <= v <= hi, and the code as written agrees: its minimum is an integer. */
  lemma IntegerBothBounds(lo: int, hi: int, raw: Raw, v: int)
    requires lo != 0 && hi != 0 && PyInt(raw) == Some(v)
    ensures IntegerValue(Some(lo), Some(hi), raw) == if lo <= v <= hi then Value(v) else Failure(Validation)
    ensures IntegerValueAsWritten(Some(lo), Some(hi), raw) == IntegerValue(Some(lo), Some(hi), raw)
  {
    IntegerBounds(Some(lo), Some(hi), raw, v);
  }

  /** A single minimum of 1, as IntegerField(name, title, 1) sets it: '0' is
      rejected. */
  lemma IntegerMinOnlyExample()
    ensures IntegerValue(Some(1), None, Str("0")) == Failure(Validation)
  {
    ParseDecimalString(0);
    assert DecimalString(0) == "0";
    IntegerBounds(Some(1), None, Str("0"), 0);
  }

  /** A bound of 0 is never enforced: under the intended coercion it behaves as
      if it were unset. As written, a minimum of 0 and no minimum differ once a
      maximum is exceeded (MaxOnlyTypeErrorExample). */
  lemma ZeroBoundIgnored(min: Option<int>, max: Option<int>, raw: Raw)
    ensures IntegerValue(Some(0), max, raw) == IntegerValue(None, max, raw)
    ensures IntegerValue(min, Some(0), raw) == IntegerValue(min, None, raw)
    ensures IntegerValueAsWritten(min, Some(0), raw) == IntegerValueAsWritten(min, None, raw)
  {
  }

  /** Re-coercing an accepted integer, natively or as its decimal string,
      gives the same integer back. */
  lemma IntegerIdempotent(min: Option<int>, max: Option<int>, raw: Raw)
    requires IntegerValue(min, max, raw).Value?
    ensures var v := IntegerValue(min, max, raw).value;
      IntegerValue(min, max, Int(v)) == Value(v) &&
      IntegerValue(min, max, Str(DecimalString(v))) == Value(v)
  {
    var v := IntegerValue(min, max, raw).value;
    ParseDecimalString(v);
  }

  /** A falsy answer that int() rejects ('' or None) is "no answer" whatever
      the bounds; a blank but non-empty string is an error. */
  lemma IntegerEmpty(min: Option<int>, max: Option<int>, s: string)
    requires AllSpace(s)
    ensures IntegerValue(min, max, NoneValue) == Absent
    ensures IntegerValue(min, max, Str(s)) == if s == [] then Absent else Failure(Validation)
  {
    ParseRejectsBlank(s);
  }

  /** A string with a decimal point is rejected while a native fractional number
      is truncated: the asymmetry of int() is kept. */
  lemma IntegerFractionAsymmetry(s: string, i: int, x: real)
    requires 0 <= i < |s| && s[i] == '.'
    ensures IntegerValue(None, None, Str(s)) == Failure(Validation)
    ensures IntegerValue(None, None, Frac(x)) == Value(Truncate(x))
  {
    ParseRejectsForeignChar(s, i);
  }

  /** An accepted string exercised for the integer field in tests_field_scheme.py. */
  lemma IntegerAcceptedExample()
    ensures IntegerValue(None, None, Str("5")) == Value(5)
  {
    ParseDecimalString(5);
    assert DecimalString(5) == "5";
  }

  /** The lower bound itself is accepted (tests_field_scheme.py, bounds -10 and 10). */
  lemma IntegerAtBoundExample()
    ensures IntegerValue(Some(-10), Some(10), Str("-10")) == Value(-10)
  {
    ParseDecimalString(-10);
    assert DecimalString(-10) == "-10";
  }

  /** The rejected strings exercised for the integer field in tests_field_scheme.py. */
  lemma IntegerRejectedExamples()
    ensures IntegerValue(None, None, Str("")) == Absent
    ensures IntegerValue(None, None, Str("not int str")) == Failure(Validation)
    ensures IntegerValue(None, None, Str("15.5")) == Failure(Validation)
  {
    ParseRejectsForeignChar("not int str", 0);
    ParseRejectsForeignChar("15.5", 2);
  }

  /** The native numbers exercised for the integer field in tests_field_scheme.py. */
  lemma IntegerNativeExamples()
    ensures IntegerValue(None, None, Frac(15.5)) == Value(15)
    ensures IntegerValue(Some(-10), Some(10), Int(-11)) == Failure(Validation)
  {
  }

  /** StringField.get_field_value. A falsy answer becomes ''; otherwise str() of
      the answer. str() of a float is Python's float formatting, which is a
      parameter here (floatStr). */
  function StringValue(raw: Raw, floatStr: real -> string): (r: string)
    ensures Falsy(raw) ==> r == []
    ensures raw.Str? ==> r == raw.text
  {
    if Falsy(raw) then []
    else match raw
      case Str(s) => s
      case Int(i) => DecimalString(i)
      case Frac(x) => floatStr(x)
      case NoneValue => []
  }

  /** Coercing the canonical string again changes nothing. */
  lemma StringIdempotent(raw: Raw, floatStr: real -> string)
    ensures StringValue(Str(StringValue(raw, floatStr)), floatStr) == StringValue(raw, floatStr)
  {
  }

  /** str() of a non-zero integer parses back to that integer; 0 is falsy and
      becomes ''. */
  lemma StringOfInteger(i: int, floatStr: real -> string)
    ensures i == 0 ==> StringValue(Int(i), floatStr) == []
    ensures i != 0 ==> IntegerValue(None, None, Str(StringValue(Int(i), floatStr))) == Value(i)
  {
    if i != 0 {
      assert StringValue(Int(i), floatStr) == DecimalString(i);
      ParseDecimalString(i);
    }
  }
}
