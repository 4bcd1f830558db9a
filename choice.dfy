/** SingleField and MultipleField (src/fields.py): coercing an answer to one
    category code or to a list of them, and printing their labels. */
module Choice {
  import opened Errors
  import opened Text
  import opened Coercion
  import opened Categories

  /** SingleField.get_field_value: integer coercion without bounds, then the
      value must be one of the codes. */
  function SingleValue(codes: seq<int>, raw: Raw): (r: Coerced<int>)
    ensures r.Value? <==> PyInt(raw).Some? && PyInt(raw).value in codes
    ensures r.Value? ==> r.value == PyInt(raw).value
    ensures r.Absent? <==> PyInt(raw).None? && Falsy(raw)
    ensures r.Failure? ==> r.error == Validation
  {
    match IntegerValue(None, None, raw)
    case Value(v) => if v in codes then Value(v) else Failure(Validation)
    case Absent => Absent
    case Failure(e) => Failure(e)
  }

  /** Re-coercing an accepted code, natively or as its decimal string, gives it back. */
  lemma SingleIdempotent(codes: seq<int>, raw: Raw)
    requires SingleValue(codes, raw).Value?
    ensures var c := SingleValue(codes, raw).value;
      SingleValue(codes, Int(c)) == Value(c) && SingleValue(codes, Str(DecimalString(c))) == Value(c)
  {
    ParseDecimalString(SingleValue(codes, raw).value);
  }

  /** SingleField.get_print_value: the label of the coerced code. A coercion
      error propagates; an absent answer looks up categories[None], a KeyError. */
  function SinglePrintValue(categories: map<int, string>, codes: seq<int>, raw: Raw): (r: Result<string>)
    ensures SingleValue(codes, raw).Failure? ==> r == Fail(Validation)
    ensures SingleValue(codes, raw).Absent? ==> r == Fail(KeyError)
    ensures r.Ok? ==>
      (SingleValue(codes, raw).Value? && SingleValue(codes, raw).value in categories &&
       r.value == categories[SingleValue(codes, raw).value])
    ensures StoreValid(categories, codes) ==> (r.Ok? <==> SingleValue(codes, raw).Value?)
  {
    match SingleValue(codes, raw)
    case Failure(e) => Fail(e)
    case Absent => Fail(KeyError)
    case Value(c) => if c in categories then Ok(categories[c]) else Fail(KeyError)
  }

  /** The answers exercised for the single field in tests_field_scheme.py,
      over the codes 1 to 10 labelled "Category 1" to "Category 10". */
  lemma SingleExamples(categories: map<int, string>)
    requires categories == map[1 := "Category 1", 2 := "Category 2", 3 := "Category 3", 4 := "Category 4",
                               5 := "Category 5", 6 := "Category 6", 7 := "Category 7", 8 := "Category 8",
                               9 := "Category 9", 10 := "Category 10"]
    ensures SingleValue([1, 2, 3, 4, 5, 6, 7, 8, 9, 10], Str("4")) == Value(4)
    ensures SingleValue([1, 2, 3, 4, 5, 6, 7, 8, 9, 10], Str("")) == Absent
    ensures SingleValue([1, 2, 3, 4, 5, 6, 7, 8, 9, 10], Int(11)) == Failure(Validation)
    ensures SinglePrintValue(categories, [1, 2, 3, 4, 5, 6, 7, 8, 9, 10], Str("4")) == Ok("Category 4")
  {
    ParseDecimalString(4);
    assert DecimalString(4) == "4";
  }

  // ---------------------------------------------------------------------------
  // MultipleField

  /** The codes accepted from values so far, or the error of the first element
      that fails. */
  function Accepted(codes: seq<int>, values: seq<Raw>): Result<seq<int>>
    decreases |values|
  {
    if values == [] then Ok([])
    else
      match Accepted(codes, values[..|values| - 1])
      case Fail(e) => Fail(e)
      case Ok(acc) =>
        match SingleValue(codes, values[|values| - 1])
        case Value(c) => Ok(acc + [c])
        case Absent => Ok(acc)
        case Failure(e) => Fail(e)
  }

  /** The result of MultipleField.get_field_value on values. */
  function MultipleSpec(codes: seq<int>, values: seq<Raw>): Coerced<seq<int>>
  {
    match Accepted(codes, values)
    case Fail(e) => Failure(e)
    case Ok(acc) => if acc == [] then Absent else Value(acc)
  }

  lemma {:induction false} AcceptedFailurePersists(codes: seq<int>, values: seq<Raw>, k: nat)
    requires k <= |values| && Accepted(codes, values[..k]).Fail?
    ensures Accepted(codes, values) == Accepted(codes, values[..k])
    decreases |values| - k
  {
    if k < |values| {
      assert values[..k + 1][..k] == values[..k];
      AcceptedFailurePersists(codes, values, k + 1);
    } else {
      assert values[..k] == values;
    }
  }

  /** MultipleField.get_field_value: the loop appending to result_values. */
  method MultipleValue(codes: seq<int>, values: seq<Raw>) returns (r: Coerced<seq<int>>)
    ensures r == MultipleSpec(codes, values)
  {
    var result: seq<int> := [];
    for i := 0 to |values|
      invariant Accepted(codes, values[..i]) == Ok(result)
    {
      assert values[..i + 1][..i] == values[..i];
      match SingleValue(codes, values[i]) {
        case Failure(e) =>
          AcceptedFailurePersists(codes, values, i + 1);
          return Failure(e);
        case Absent =>
        case Value(c) =>
          // the second membership test of the source never fails
          assert c in codes;
          result := result + [c];
      }
    }
    assert values[..|values|] == values;
    if result == [] {
      return Absent;
    }
    return Value(result);
  }

  /** The accepted codes of values in input order, absent elements dropped:
      a reference definition that ignores failures, independent of Accepted. */
  function Kept(codes: seq<int>, values: seq<Raw>): (r: seq<int>)
    ensures forall k :: 0 <= k < |r| ==> r[k] in codes
  {
    if values == [] then [] else Kept(codes, values[..|values| - 1]) + KeptOne(codes, values[|values| - 1])
  }

  /** The code one element contributes: itself when accepted, nothing otherwise. */
  function KeptOne(codes: seq<int>, v: Raw): seq<int>
  {
    match SingleValue(codes, v)
    case Value(c) => [c]
    case Absent => []
    case Failure(_) => []
  }

  lemma KeptSingleton(codes: seq<int>, x: Raw)
    ensures Kept(codes, [x]) == KeptOne(codes, x)
  {
    assert [x][..0] == [];
  }

  /** One more element extends the kept codes by its own contribution. */
  lemma KeptAppend(codes: seq<int>, values: seq<Raw>, x: Raw)
    ensures Kept(codes, values + [x]) == Kept(codes, values) + KeptOne(codes, x)
  {
    assert (values + [x])[..|values|] == values;
  }

  ghost predicate SomeInvalid(codes: seq<int>, values: seq<Raw>)
  {
    exists i :: 0 <= i < |values| && SingleValue(codes, values[i]).Failure?
  }

  lemma {:induction false} AcceptedIsKept(codes: seq<int>, values: seq<Raw>)
    ensures Accepted(codes, values).Fail? <==> SomeInvalid(codes, values)
    ensures Accepted(codes, values).Fail? ==> Accepted(codes, values).error == Validation
    ensures Accepted(codes, values).Ok? ==> Accepted(codes, values).value == Kept(codes, values)
    decreases |values|
  {
    if values != [] {
      var n := |values| - 1;
      var prefix := values[..n];
      AcceptedIsKept(codes, prefix);
      assert forall i :: 0 <= i < n ==> prefix[i] == values[i];
      assert values == prefix + [values[n]];
      KeptAppend(codes, prefix, values[n]);
    }
  }

  /** MultipleField.get_field_value in full: any element that fails coercion
      fails the whole call with ValidationError; otherwise the accepted codes in
      input order, absent elements dropped, or "no answer" when none is left. */
  lemma MultipleResult(codes: seq<int>, values: seq<Raw>)
    ensures MultipleSpec(codes, values) ==
      if SomeInvalid(codes, values) then Failure(Validation)
      else if Kept(codes, values) == [] then Absent
      else Value(Kept(codes, values))
  {
    AcceptedIsKept(codes, values);
  }

  /** A list of empty answers coerces to "no answer". */
  lemma {:induction false} MultipleAllEmpty(codes: seq<int>, values: seq<Raw>)
    requires forall i :: 0 <= i < |values| ==> values[i] == Str([]) || values[i] == NoneValue
    ensures MultipleSpec(codes, values) == Absent
  {
    assert forall i :: 0 <= i < |values| ==> SingleValue(codes, values[i]).Absent?;
    MultipleResult(codes, values);
    KeptNone(codes, values);
  }

  lemma {:induction false} KeptNone(codes: seq<int>, values: seq<Raw>)
    requires forall i :: 0 <= i < |values| ==> SingleValue(codes, values[i]).Absent?
    ensures Kept(codes, values) == []
  {
    if values != [] {
      var prefix := values[..|values| - 1];
      assert forall i :: 0 <= i < |prefix| ==> prefix[i] == values[i];
      KeptNone(codes, prefix);
    }
  }

  /** Each element of the mixed list of tests_field_scheme.py, coerced alone. */
  lemma MixedCoerced(codes: seq<int>)
    requires codes == [1, 2, 3, 4, 5, 6, 7, 8, 9, 10]
    ensures SingleValue(codes, Int(1)) == Value(1)
    ensures SingleValue(codes, Str("4")) == Value(4)
    ensures SingleValue(codes, Str("5")) == Value(5)
    ensures SingleValue(codes, Str("")) == Absent
    ensures SingleValue(codes, Frac(6.0)) == Value(6)
  {
    ParseDecimalString(4);
    assert DecimalString(4) == "4";
    ParseDecimalString(5);
    assert DecimalString(5) == "5";
  }

  /** The mixed list exercised for the multiple field in tests_field_scheme.py,
      over the codes 1 to 10: the empty answer is dropped, the rest keep their order. */
  lemma MultipleMixedExample()
    ensures MultipleSpec([1, 2, 3, 4, 5, 6, 7, 8, 9, 10], [Int(1), Str("4"), Str("5"), Str(""), Frac(6.0)]) == Value([1, 4, 5, 6])
  {
    var codes := [1, 2, 3, 4, 5, 6, 7, 8, 9, 10];
    var vs := [Int(1), Str("4"), Str("5"), Str(""), Frac(6.0)];
    MixedValid(codes, vs);
    MixedKept(codes, vs);
    MultipleResult(codes, vs);
  }

  /** No element of the mixed list fails. */
  lemma MixedValid(codes: seq<int>, vs: seq<Raw>)
    requires codes == [1, 2, 3, 4, 5, 6, 7, 8, 9, 10]
    requires vs == [Int(1), Str("4"), Str("5"), Str(""), Frac(6.0)]
    ensures !SomeInvalid(codes, vs)
  {
    MixedCoerced(codes);
    forall i | 0 <= i < |vs| ensures !SingleValue(codes, vs[i]).Failure? {
    }
  }

  /** The codes the mixed list keeps. */
  lemma MixedKept(codes: seq<int>, vs: seq<Raw>)
    requires codes == [1, 2, 3, 4, 5, 6, 7, 8, 9, 10]
    requires vs == [Int(1), Str("4"), Str("5"), Str(""), Frac(6.0)]
    ensures Kept(codes, vs) == [1, 4, 5, 6]
  {
    MixedCoerced(codes);
    KeptFive(codes, Int(1), Str("4"), Str("5"), Str(""), Frac(6.0));
  }

  /** Kept of a five-element list, element by element. */
  lemma KeptFive(codes: seq<int>, a: Raw, b: Raw, c: Raw, d: Raw, e: Raw)
    ensures Kept(codes, [a, b, c, d, e]) ==
      KeptOne(codes, a) + KeptOne(codes, b) + KeptOne(codes, c) + KeptOne(codes, d) + KeptOne(codes, e)
  {
    var p1 := [a];
    var p2 := p1 + [b];
    var p3 := p2 + [c];
    var p4 := p3 + [d];
    assert [a, b, c, d, e] == p4 + [e];
    KeptSingleton(codes, a);
    KeptAppend(codes, p1, b);
    KeptAppend(codes, p2, c);
    KeptAppend(codes, p3, d);
    KeptAppend(codes, p4, e);
  }

  /** A list holding only the empty answer is "no answer" (tests_field_scheme.py). */
  lemma MultipleEmptyExample()
    ensures MultipleSpec([1, 2, 3, 4, 5, 6, 7, 8, 9, 10], [Str("")]) == Absent
  {
    MultipleAllEmpty([1, 2, 3, 4, 5, 6, 7, 8, 9, 10], [Str("")]);
  }

  /** One code outside the categories fails the whole list (tests_field_scheme.py). */
  lemma MultipleRejectedExample()
    ensures MultipleSpec([1, 2, 3, 4, 5, 6, 7, 8, 9, 10], [Int(1), Int(23), Int(5)]) == Failure(Validation)
  {
    var codes := [1, 2, 3, 4, 5, 6, 7, 8, 9, 10];
    var bad := [Int(1), Int(23), Int(5)];
    assert SingleValue(codes, bad[1]).Failure?;
    MultipleResult(codes, bad);
  }

  /** MultipleField.get_print_value: the labels of the accepted codes in order.
      An absent result is iterated as None, a TypeError. */
  method MultiplePrintValue(categories: map<int, string>, codes: seq<int>, values: seq<Raw>)
    returns (r: Result<seq<string>>)
    ensures MultipleSpec(codes, values).Failure? ==> r == Fail(Validation)
    ensures MultipleSpec(codes, values).Absent? ==> r == Fail(TypeError)
    ensures r.Ok? ==>
      (MultipleSpec(codes, values).Value? &&
       var xs := MultipleSpec(codes, values).value;
       |r.value| == |xs| && forall i :: 0 <= i < |xs| ==> xs[i] in categories && r.value[i] == categories[xs[i]])
    ensures StoreValid(categories, codes) ==> (r.Ok? <==> MultipleSpec(codes, values).Value?)
  {
    AcceptedIsKept(codes, values);
    var v := MultipleValue(codes, values);
    match v {
      case Failure(e) =>
        r := Fail(e);
      case Absent =>
        r := Fail(TypeError);
      case Value(xs) =>
        if forall i :: 0 <= i < |xs| ==> xs[i] in categories {
          r := Ok(seq(|xs|, i requires 0 <= i < |xs| => categories[xs[i]]));
        } else {
          if StoreValid(categories, codes) {
            forall i | 0 <= i < |xs| ensures xs[i] in categories {
              CodeListed(categories, codes, xs[i]);
            }
          }
          r := Fail(KeyError);
        }
    }
  }
}
