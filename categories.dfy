/** The category store of SingleField and MultipleField (src/fields.py,
    CategoriesMixin): a map from integer code to label plus the ascending list
    of its codes. */
module Categories {
  import opened Errors
  import opened Text
  import opened Coercion

  // ---------------------------------------------------------------------------
  // sorted(): the ascending list of a collection of codes

  /** Strictly ascending, hence without repetitions. */
  predicate Ascending(xs: seq<int>)
  {
    forall i, j :: 0 <= i < j < |xs| ==> xs[i] < xs[j]
  }

  /** Inserting one code into an ascending list at its place. */
  function InsertCode(xs: seq<int>, c: int): (r: seq<int>)
    requires Ascending(xs)
    ensures Ascending(r)
    ensures forall d :: d in r <==> d in xs || d == c
  {
    if xs == [] then [c]
    else if c < xs[0] then [c] + xs
    else if c == xs[0] then xs
    else
      var rest := InsertCode(xs[1..], c);
      HeadBelowTail(xs);
      assert xs == [xs[0]] + xs[1..];
      AscendingPrepend(xs[0], rest);
      [xs[0]] + rest
  }

  /** The head of a non-empty ascending list is below every later element. */
  lemma HeadBelowTail(xs: seq<int>)
    requires Ascending(xs) && xs != []
    ensures forall d :: d in xs[1..] ==> xs[0] < d
  {
    forall d | d in xs[1..] ensures xs[0] < d {
      var k :| 0 <= k < |xs| - 1 && xs[1..][k] == d;
      assert xs[k + 1] == d;
    }
  }

  /** A code below every element of an ascending list can go in front of it. */
  lemma AscendingPrepend(x: int, rest: seq<int>)
    requires Ascending(rest) && forall d :: d in rest ==> x < d
    ensures Ascending([x] + rest)
  {
    var r := [x] + rest;
    forall i, j | 0 <= i < j < |r| ensures r[i] < r[j] {
      assert r[j] == rest[j - 1];
      if i > 0 {
        assert r[i] == rest[i - 1];
      } else {
        assert rest[j - 1] in rest;
      }
    }
  }

  /** sorted(set(cs)): every code of cs exactly once, ascending. */
  function SortCodes(cs: seq<int>): (r: seq<int>)
    ensures Ascending(r)
    ensures forall d :: d in r <==> d in cs
  {
    if cs == [] then [] else InsertCode(SortCodes(cs[..|cs| - 1]), cs[|cs| - 1])
  }

  lemma AscendingHead(s: seq<int>, x: int)
    requires Ascending(s) && x in s
    ensures s[0] <= x
  {
    var i :| 0 <= i < |s| && s[i] == x;
    if i > 0 {
      assert s[0] < s[i];
    }
  }

  /** Two ascending lists with the same elements are the same list, so an
      ascending listing of a set of codes is unique. */
  lemma {:induction false} AscendingUnique(a: seq<int>, b: seq<int>)
    requires Ascending(a) && Ascending(b)
    requires forall d :: d in a <==> d in b
    ensures a == b
    decreases |a|
  {
    if a != [] {
      assert a[0] in a;
      assert b != [];
    }
    if b != [] {
      assert b[0] in b;
    }
    if a != [] {
      assert a[0] in b && b[0] in a;
      AscendingHead(a, b[0]);
      AscendingHead(b, a[0]);
      forall d
        ensures d in a[1..] <==> d in b[1..]
      {
        if d in a[1..] {
          var i :| 0 <= i < |a[1..]| && a[1..][i] == d;
          assert a[0] < a[i + 1];
          assert d in b;
        }
        if d in b[1..] {
          var i :| 0 <= i < |b[1..]| && b[1..][i] == d;
          assert b[0] < b[i + 1];
          assert d in a;
        }
      }
      AscendingUnique(a[1..], b[1..]);
      assert a == [a[0]] + a[1..] && b == [b[0]] + b[1..];
    }
  }

  // ---------------------------------------------------------------------------
  // The store

  /** codes is sorted(categories.keys()). */
  ghost predicate SortedKeys(categories: map<int, string>, codes: seq<int>)
  {
    Ascending(codes) &&
    (forall i :: 0 <= i < |codes| ==> codes[i] in categories) &&
    (forall c :: c in categories ==> c in codes)
  }

  lemma CodeListed(categories: map<int, string>, codes: seq<int>, c: int)
    requires SortedKeys(categories, codes) && c in codes
    ensures c in categories
  {
    var i :| 0 <= i < |codes| && codes[i] == c;
  }

  /** No two codes carry labels that are equal once lower-cased. */
  ghost predicate LabelsDistinct(categories: map<int, string>)
  {
    forall a, b :: a in categories && b in categories && a != b ==> Lower(categories[a]) != Lower(categories[b])
  }

  /** What a category field keeps between calls. */
  ghost predicate StoreValid(categories: map<int, string>, codes: seq<int>)
  {
    SortedKeys(categories, codes) && LabelsDistinct(categories)
  }

  // ---------------------------------------------------------------------------
  // _get_categories: items are the (code, label) pairs of the dict passed in,
  // in its iteration order.

  function LowerLabels(items: seq<(Raw, string)>): (r: seq<string>)
    ensures |r| == |items| && forall i :: 0 <= i < |items| ==> r[i] == Lower(items[i].1)
  {
    seq(|items|, i requires 0 <= i < |items| => Lower(items[i].1))
  }

  /** The result of _get_categories on items: items are taken in order; the
      first one whose code int() rejects raises CategoryCodeError, the first
      whose lower-cased label was already seen raises DuplicateCategoryError,
      and otherwise the map gets code -> label (a repeated code keeps the
      later label). Labels are not trimmed: the strip() result is discarded. */
  function BuildCategories(items: seq<(Raw, string)>): (r: Result<map<int, string>>)
    ensures r.Fail? ==> r.error == CategoryCode || r.error == DuplicateCategory
    decreases |items|
  {
    if items == [] then Ok(map[])
    else
      var prefix := items[..|items| - 1];
      var (code, labelText) := items[|items| - 1];
      match BuildCategories(prefix)
      case Fail(e) => Fail(e)
      case Ok(m) =>
        match PyInt(code)
        case None => Fail(CategoryCode)
        case Some(c) =>
          if Lower(labelText) in LowerLabels(prefix) then Fail(DuplicateCategory) else Ok(m[c := labelText])
  }

  predicate CodesConvert(items: seq<(Raw, string)>)
  {
    forall i :: 0 <= i < |items| ==> PyInt(items[i].0).Some?
  }

  /** All pairs of labels differ case-insensitively. */
  predicate LabelsUnique(items: seq<(Raw, string)>)
  {
    forall i, j :: 0 <= i < j < |items| ==> Lower(items[i].1) != Lower(items[j].1)
  }

  /** The integer codes of items, in order. */
  function ConvertedCodes(items: seq<(Raw, string)>): (r: seq<int>)
    requires CodesConvert(items)
    ensures |r| == |items| && forall i :: 0 <= i < |items| ==> Some(r[i]) == PyInt(items[i].0)
  {
    seq(|items|, i requires 0 <= i < |items| => PyInt(items[i].0).value)
  }

  /** The codes list kept next to a store built from items. */
  function StoreCodes(items: seq<(Raw, string)>): (r: seq<int>)
    requires CodesConvert(items)
    ensures Ascending(r)
  {
    SortCodes(ConvertedCodes(items))
  }

  /** Checking each label against the labels seen so far amounts to all-pairs
      uniqueness: construction succeeds exactly when every code converts and
      no two labels are equal under lower(). */
  lemma {:induction false} BuildSucceeds(items: seq<(Raw, string)>)
    ensures BuildCategories(items).Ok? <==> CodesConvert(items) && LabelsUnique(items)
    decreases |items|
  {
    if items != [] {
      var n := |items| - 1;
      var prefix := items[..n];
      BuildSucceeds(prefix);
      assert forall i :: 0 <= i < n ==> prefix[i] == items[i];
      assert Lower(items[n].1) in LowerLabels(prefix) <==> exists i :: 0 <= i < n && Lower(items[i].1) == Lower(items[n].1) by {
        var ls := LowerLabels(prefix);
        assert forall i :: 0 <= i < n ==> ls[i] == Lower(items[i].1);
      }
    }
  }

  /** With labels distinct ignoring case, a code int() rejects makes the build
      fail with CategoryCodeError. */
  lemma {:induction false} CodeKind(items: seq<(Raw, string)>)
    requires LabelsUnique(items) && !CodesConvert(items)
    ensures BuildCategories(items) == Fail(CategoryCode)
    decreases |items|
  {
    var n := |items| - 1;
    var prefix := items[..n];
    assert forall i :: 0 <= i < n ==> prefix[i] == items[i];
    if CodesConvert(prefix) {
      BuildSucceeds(prefix);
      assert PyInt(items[n].0).None?;
    } else {
      CodeKind(prefix);
    }
  }

  /** With every code converting, two labels equal ignoring case make the
      build fail with DuplicateCategoryError. */
  lemma {:induction false} DupKind(items: seq<(Raw, string)>)
    requires CodesConvert(items) && !LabelsUnique(items)
    ensures BuildCategories(items) == Fail(DuplicateCategory)
    decreases |items|
  {
    var n := |items| - 1;
    var prefix := items[..n];
    assert forall i :: 0 <= i < n ==> prefix[i] == items[i];
    if LabelsUnique(prefix) {
      BuildSucceeds(prefix);
      var i, j :| 0 <= i < j < |items| && Lower(items[i].1) == Lower(items[j].1);
      assert j == n;
      var ls := LowerLabels(prefix);
      assert ls[i] == Lower(items[n].1);
    } else {
      DupKind(prefix);
    }
  }

  /** On success the keys are exactly the converted codes. */
  lemma {:induction false} BuildKeys(items: seq<(Raw, string)>)
    requires BuildCategories(items).Ok?
    ensures CodesConvert(items)
    ensures forall c :: c in BuildCategories(items).value <==> c in ConvertedCodes(items)
    decreases |items|
  {
    BuildSucceeds(items);
    if items != [] {
      var n := |items| - 1;
      var prefix := items[..n];
      BuildKeys(prefix);
      var cs, ps := ConvertedCodes(items), ConvertedCodes(prefix);
      assert forall i :: 0 <= i < n ==> prefix[i] == items[i];
      assert cs == ps + [cs[n]];
      var m := BuildCategories(prefix).value;
      assert BuildCategories(items) == Ok(m[cs[n] := items[n].1]);
      forall c ensures c in cs <==> c in ps || c == cs[n] {
        assert c in ps + [cs[n]] <==> c in ps || c in [cs[n]];
      }
    }
  }

  /** On success every label in the map is the label of an item with that code. */
  lemma {:induction false} BuildLabelsFromItems(items: seq<(Raw, string)>)
    requires BuildCategories(items).Ok?
    ensures var m := BuildCategories(items).value;
      forall c :: c in m ==> exists i :: 0 <= i < |items| && PyInt(items[i].0) == Some(c) && m[c] == items[i].1
    decreases |items|
  {
    if items != [] {
      var n := |items| - 1;
      var prefix := items[..n];
      BuildLabelsFromItems(prefix);
      var m0 := BuildCategories(prefix).value;
      var m := BuildCategories(items).value;
      forall c | c in m
        ensures exists i :: 0 <= i < |items| && PyInt(items[i].0) == Some(c) && m[c] == items[i].1
      {
        if PyInt(items[n].0) == Some(c) {
          assert m[c] == items[n].1;
        } else {
          var i :| 0 <= i < n && PyInt(prefix[i].0) == Some(c) && m0[c] == prefix[i].1;
          assert prefix[i] == items[i];
        }
      }
    }
  }

  /** On success a code carried by several items keeps the label of the last one. */
  lemma {:induction false} BuildLastLabel(items: seq<(Raw, string)>, i: int)
    requires BuildCategories(items).Ok? && 0 <= i < |items|
    requires forall j :: i < j < |items| ==> PyInt(items[j].0) != PyInt(items[i].0)
    ensures PyInt(items[i].0).Some?
    ensures var m := BuildCategories(items).value;
      PyInt(items[i].0).value in m && m[PyInt(items[i].0).value] == items[i].1
    decreases |items|
  {
    BuildSucceeds(items);
    var n := |items| - 1;
    var prefix := items[..n];
    if i < n {
      assert forall j :: i < j < n ==> prefix[j] == items[j];
      assert prefix[i] == items[i];
      BuildLastLabel(prefix, i);
    }
  }

  /** A store built successfully has case-insensitively distinct labels. */
  lemma BuildDistinct(items: seq<(Raw, string)>)
    requires BuildCategories(items).Ok?
    ensures LabelsDistinct(BuildCategories(items).value)
  {
    var m := BuildCategories(items).value;
    BuildSucceeds(items);
    BuildLabelsFromItems(items);
    forall a, b | a in m && b in m && a != b
      ensures Lower(m[a]) != Lower(m[b])
    {
      var i :| 0 <= i < |items| && PyInt(items[i].0) == Some(a) && m[a] == items[i].1;
      var k :| 0 <= k < |items| && PyInt(items[k].0) == Some(b) && m[b] == items[k].1;
      if i < k {
        assert Lower(items[i].1) != Lower(items[k].1);
      } else {
        assert Lower(items[k].1) != Lower(items[i].1);
      }
    }
  }

  /** A successful construction gives a valid store: codes are the sorted keys
      and the labels are distinct. */
  lemma BuildValid(items: seq<(Raw, string)>)
    requires BuildCategories(items).Ok?
    ensures CodesConvert(items)
    ensures StoreValid(BuildCategories(items).value, StoreCodes(items))
  {
    BuildKeys(items);
    BuildDistinct(items);
  }

  lemma {:induction false} BuildFailurePersists(items: seq<(Raw, string)>, k: nat)
    requires k <= |items| && BuildCategories(items[..k]).Fail?
    ensures BuildCategories(items) == BuildCategories(items[..k])
    decreases |items| - k
  {
    if k < |items| {
      assert items[..k + 1][..k] == items[..k];
      BuildFailurePersists(items, k + 1);
    } else {
      assert items[..k] == items;
    }
  }

  /** One more item through the construction loop. */
  lemma BuildStep(items: seq<(Raw, string)>, i: int)
    requires 0 <= i < |items|
    ensures LowerLabels(items[..i + 1]) == LowerLabels(items[..i]) + [Lower(items[i].1)]
    ensures BuildCategories(items[..i + 1]) ==
      match BuildCategories(items[..i])
      case Fail(e) => Fail(e)
      case Ok(m) =>
        match PyInt(items[i].0)
        case None => Fail(CategoryCode)
        case Some(c) =>
          if Lower(items[i].1) in LowerLabels(items[..i]) then Fail(DuplicateCategory) else Ok(m[c := items[i].1])
  {
    assert items[..i + 1][..i] == items[..i];
    assert items[..i + 1][i] == items[i];
  }

  /** CategoriesMixin._get_categories: the loop filling result_categories and
      category_labels. */
  method GetCategories(items: seq<(Raw, string)>) returns (r: Result<map<int, string>>)
    ensures r == BuildCategories(items)
  {
    var result: map<int, string> := map[];
    var labels: seq<string> := [];
    var i := 0;
    while i < |items|
      invariant 0 <= i <= |items|
      invariant BuildCategories(items[..i]) == Ok(result)
      invariant labels == LowerLabels(items[..i])
    {
      var (code, labelText) := items[i];
      BuildStep(items, i);
      match PyInt(code) {
        case None =>
          BuildFailurePersists(items, i + 1);
          return Fail(CategoryCode);
        case Some(c) =>
          if Lower(labelText) in labels {
            BuildFailurePersists(items, i + 1);
            return Fail(DuplicateCategory);
          }
          result := result[c := labelText];
          labels := labels + [Lower(labelText)];
      }
      i := i + 1;
    }
    assert items[..i] == items;
    r := Ok(result);
  }

  /** The store built from the categories of the test fixture: codes 1 and 2
      labelled "Category 1" and "Category 2". */
  lemma BuildExample()
    ensures BuildCategories([(Int(1), "Category 1"), (Int(2), "Category 2")]) == Ok(map[1 := "Category 1", 2 := "Category 2"])
    ensures StoreCodes([(Int(1), "Category 1"), (Int(2), "Category 2")]) == [1, 2]
  {
    assert Lower("Category 2") != Lower("Category 1") by {
      assert Lower("Category 2")[9] == '2' && Lower("Category 1")[9] == '1';
    }
    BuildPair((Int(1), "Category 1"), (Int(2), "Category 2"));
    assert [1, 2][..1] == [1] && [1][..0] == [];
    assert SortCodes([1]) == [1];
    assert InsertCode([1], 2) == [1, 2];
  }

  /** Two items with convertible codes and labels that differ ignoring case. */
  lemma BuildPair(x: (Raw, string), y: (Raw, string))
    requires PyInt(x.0).Some? && PyInt(y.0).Some? && Lower(y.1) != Lower(x.1)
    ensures BuildCategories([x, y]) == Ok(map[PyInt(x.0).value := x.1][PyInt(y.0).value := y.1])
    ensures CodesConvert([x, y]) && StoreCodes([x, y]) == SortCodes([PyInt(x.0).value, PyInt(y.0).value])
  {
    var items := [x, y];
    assert items[..1] == [x] && [x][..0] == [];
    assert BuildCategories([x]) == Ok(map[PyInt(x.0).value := x.1]);
    assert LowerLabels([x]) == [Lower(x.1)];
    assert Lower(y.1) !in LowerLabels([x]);
    assert ConvertedCodes(items) == [PyInt(x.0).value, PyInt(y.0).value];
  }

  /** Labels equal under lower() make construction fail. */
  lemma BuildDuplicateExample()
    ensures BuildCategories([(Int(1), "Yes"), (Int(2), "YES")]) == Fail(DuplicateCategory)
  {
    var items := [(Int(1), "Yes"), (Int(2), "YES")];
    assert items[..1][..0] == [];
    assert Lower("YES") == Lower("Yes") by {
      assert Lower("YES") == "yes";
      assert Lower("Yes") == "yes";
    }
    assert LowerLabels(items[..1]) == [Lower("Yes")];
  }

  /** get_print_categories: the (code, label) items in ascending code order. */
  function PrintCategories(categories: map<int, string>, codes: seq<int>): (r: seq<(int, string)>)
    requires SortedKeys(categories, codes)
    ensures forall i, j :: 0 <= i < j < |r| ==> r[i].0 < r[j].0
    ensures forall i :: 0 <= i < |r| ==> r[i].0 in categories && r[i].1 == categories[r[i].0]
    ensures forall c :: c in categories ==> (c, categories[c]) in r
  {
    var r := seq(|codes|, i requires 0 <= i < |codes| => (codes[i], categories[codes[i]]));
    assert forall c :: c in categories ==> exists i :: 0 <= i < |codes| && codes[i] == c && r[i] == (c, categories[c]);
    r
  }

  // ---------------------------------------------------------------------------
  // get_categories_intersection

  /** dict(zip(lowered labels, codes)) of the other categories: when two
      entries share a lowered label the later one wins. */
  function LabelIndex(other: seq<(int, string)>): map<string, int>
    decreases |other|
  {
    if other == [] then map[]
    else
      var n := |other| - 1;
      LabelIndex(other[..n])[Lower(other[n].1) := other[n].0]
  }

  /** The index holds exactly the lowered labels of other. */
  lemma {:induction false} LabelIndexKeys(other: seq<(int, string)>)
    ensures forall i :: 0 <= i < |other| ==> Lower(other[i].1) in LabelIndex(other)
    ensures forall key :: key in LabelIndex(other) ==>
      exists i :: 0 <= i < |other| && Lower(other[i].1) == key && other[i].0 == LabelIndex(other)[key]
    decreases |other|
  {
    if other != [] {
      var n := |other| - 1;
      var prefix := other[..n];
      LabelIndexKeys(prefix);
      assert forall i :: 0 <= i < n ==> prefix[i] == other[i];
      var idx := LabelIndex(other);
      forall key | key in idx
        ensures exists i :: 0 <= i < |other| && Lower(other[i].1) == key && other[i].0 == idx[key]
      {
        if key == Lower(other[n].1) {
          assert other[n].0 == idx[key];
        } else {
          assert key in LabelIndex(prefix);
          var i :| 0 <= i < n && Lower(prefix[i].1) == key && prefix[i].0 == LabelIndex(prefix)[key];
          assert Lower(other[i].1) == key && other[i].0 == idx[key];
        }
      }
    }
  }

  /** Each lowered label is filed under the code of the last entry carrying it. */
  lemma {:induction false} LabelIndexLastWriter(other: seq<(int, string)>, i: int)
    requires 0 <= i < |other|
    requires forall j :: i < j < |other| ==> Lower(other[j].1) != Lower(other[i].1)
    ensures Lower(other[i].1) in LabelIndex(other) && LabelIndex(other)[Lower(other[i].1)] == other[i].0
    decreases |other|
  {
    var n := |other| - 1;
    if i < n {
      var prefix := other[..n];
      assert forall j :: i < j < n ==> prefix[j] == other[j];
      assert prefix[i] == other[i];
      LabelIndexLastWriter(prefix, i);
    }
  }

  /** The intersection loop over the given own codes. */
  function IntersectCodes(categories: map<int, string>, codes: seq<int>, index: map<string, int>)
    : (r: seq<(int, int, string)>)
    requires forall i :: 0 <= i < |codes| ==> codes[i] in categories
    ensures |r| <= |codes|
    ensures forall t :: t in r ==> t.0 in codes
  {
    if codes == [] then []
    else
      var c := codes[0];
      var labelText := categories[c];
      var rest := IntersectCodes(categories, codes[1..], index);
      if Lower(labelText) in index && index[Lower(labelText)] != 0 then [(c, index[Lower(labelText)], labelText)] + rest
      else rest
  }

  /** get_categories_intersection: (own code, other code, own label) for every
      own code, ascending, whose label matches an other label case-insensitively
      and whose matched other code is truthy (non-zero). */
  function Intersection(categories: map<int, string>, codes: seq<int>, other: seq<(int, string)>)
    : seq<(int, int, string)>
    requires SortedKeys(categories, codes)
  {
    IntersectCodes(categories, codes, LabelIndex(other))
  }

  lemma {:induction false} IntersectCodesMembers(categories: map<int, string>, codes: seq<int>, index: map<string, int>,
                                                 t: (int, int, string))
    requires forall i :: 0 <= i < |codes| ==> codes[i] in categories
    ensures t in IntersectCodes(categories, codes, index) <==>
      (t.0 in codes && t.2 == categories[t.0] && Lower(t.2) in index && index[Lower(t.2)] == t.1 && t.1 != 0)
  {
    if codes != [] {
      var rest := IntersectCodes(categories, codes[1..], index);
      IntersectCodesMembers(categories, codes[1..], index, t);
      assert codes == [codes[0]] + codes[1..];
      assert t.0 in codes <==> t.0 == codes[0] || t.0 in codes[1..];
      var c := codes[0];
      if Lower(categories[c]) in index && index[Lower(categories[c])] != 0 {
        var x := (c, index[Lower(categories[c])], categories[c]);
        assert t in [x] + rest <==> t == x || t in rest;
      }
    }
  }

  /** Triples in strictly ascending order of their first component. */
  predicate AscendingByOwnCode(r: seq<(int, int, string)>)
  {
    forall i, j :: 0 <= i < j < |r| ==> r[i].0 < r[j].0
  }

  lemma AscendingTail(s: seq<int>, x: int)
    requires Ascending(s) && s != [] && x in s[1..]
    ensures s[0] < x
  {
    var i :| 0 <= i < |s[1..]| && s[1..][i] == x;
    assert s[i + 1] == x;
  }

  lemma AscendingCons(x: (int, int, string), rest: seq<(int, int, string)>)
    requires AscendingByOwnCode(rest)
    requires forall k :: 0 <= k < |rest| ==> x.0 < rest[k].0
    ensures AscendingByOwnCode([x] + rest)
  {
    var r := [x] + rest;
    assert forall k :: 1 <= k < |r| ==> r[k] == rest[k - 1];
  }

  lemma {:induction false} IntersectCodesAscending(categories: map<int, string>, codes: seq<int>, index: map<string, int>)
    requires forall i :: 0 <= i < |codes| ==> codes[i] in categories
    requires Ascending(codes)
    ensures AscendingByOwnCode(IntersectCodes(categories, codes, index))
  {
    if codes != [] {
      IntersectCodesAscending(categories, codes[1..], index);
      var rest := IntersectCodes(categories, codes[1..], index);
      forall k | 0 <= k < |rest| ensures codes[0] < rest[k].0 {
        assert rest[k] in rest;
        AscendingTail(codes, rest[k].0);
      }
      var c := codes[0];
      if Lower(categories[c]) in index && index[Lower(categories[c])] != 0 {
        AscendingCons((c, index[Lower(categories[c])], categories[c]), rest);
      }
    }
  }

  /** Each triple of the intersection pairs an own code and its label with the
      code the other categories file that label under, and nothing else is in it. */
  lemma IntersectionMembers(categories: map<int, string>, codes: seq<int>, other: seq<(int, string)>,
                            t: (int, int, string))
    requires SortedKeys(categories, codes)
    ensures var index := LabelIndex(other);
      t in Intersection(categories, codes, other) <==>
        (t.0 in categories && t.2 == categories[t.0] && Lower(t.2) in index && index[Lower(t.2)] == t.1 && t.1 != 0)
  {
    assert Intersection(categories, codes, other) == IntersectCodes(categories, codes, LabelIndex(other));
    IntersectCodesMembers(categories, codes, LabelIndex(other), t);
    var c := t.0;
    if c in codes {
      var i :| 0 <= i < |codes| && codes[i] == c;
    }
    if c in categories {
      assert c in codes;
    }
  }

  /** The intersection comes in strictly ascending order of own code. */
  lemma IntersectionAscending(categories: map<int, string>, codes: seq<int>, other: seq<(int, string)>)
    requires SortedKeys(categories, codes)
    ensures AscendingByOwnCode(Intersection(categories, codes, other))
  {
    IntersectCodesAscending(categories, codes, LabelIndex(other));
  }

  /** other lists exactly the items of the map oc (a dict's items()). */
  ghost predicate Enumerates(other: seq<(int, string)>, oc: map<int, string>)
  {
    (forall i :: 0 <= i < |other| ==> other[i].0 in oc && other[i].1 == oc[other[i].0]) &&
    (forall d :: d in oc ==> exists i :: 0 <= i < |other| && other[i].0 == d)
  }

  /** When every own code has a truthy match in the index, the loop keeps them all. */
  lemma {:induction false} IntersectCodesAll(categories: map<int, string>, codes: seq<int>, index: map<string, int>)
    requires forall i :: 0 <= i < |codes| ==> codes[i] in categories
    requires forall i :: 0 <= i < |codes| ==>
      Lower(categories[codes[i]]) in index && index[Lower(categories[codes[i]])] != 0
    ensures var r := IntersectCodes(categories, codes, index);
      |r| == |codes| &&
      forall i :: 0 <= i < |codes| ==> r[i] == (codes[i], index[Lower(categories[codes[i]])], categories[codes[i]])
  {
    if codes != [] {
      IntersectCodesAll(categories, codes[1..], index);
    }
  }

  /** Against other categories whose labels cover the own labels
      case-insensitively and whose codes are all truthy, the intersection has a
      triple for every own code, ascending, pairing it with a code whose label
      matches (the test fixture: the same labels under reversed codes). */
  lemma IntersectionSameLabels(categories: map<int, string>, codes: seq<int>, other: seq<(int, string)>,
                               oc: map<int, string>)
    requires SortedKeys(categories, codes) && Enumerates(other, oc) && 0 !in oc
    requires forall c :: c in categories ==> exists d :: d in oc && Lower(oc[d]) == Lower(categories[c])
    ensures var r := Intersection(categories, codes, other);
      |r| == |codes| &&
      forall i :: 0 <= i < |r| ==>
        (r[i].0 == codes[i] && r[i].2 == categories[codes[i]] && r[i].1 in oc && Lower(oc[r[i].1]) == Lower(r[i].2))
  {
    var index := LabelIndex(other);
    forall j | 0 <= j < |codes|
      ensures Lower(categories[codes[j]]) in index && index[Lower(categories[codes[j]])] != 0
      ensures index[Lower(categories[codes[j]])] in oc && Lower(oc[index[Lower(categories[codes[j]])]]) == Lower(categories[codes[j]])
    {
      assert codes[j] in categories;
      IndexFindsLabel(other, oc, Lower(categories[codes[j]]));
    }
    IntersectCodesAll(categories, codes, index);
  }

  /** A label the enumerated map holds, ignoring case, is a key of the label
      index, filed under a truthy code of the map with a matching label. */
  lemma IndexFindsLabel(other: seq<(int, string)>, oc: map<int, string>, key: string)
    requires Enumerates(other, oc) && 0 !in oc
    requires exists d :: d in oc && Lower(oc[d]) == key
    ensures key in LabelIndex(other) && LabelIndex(other)[key] != 0
    ensures LabelIndex(other)[key] in oc && Lower(oc[LabelIndex(other)[key]]) == key
  {
    var index := LabelIndex(other);
    LabelIndexKeys(other);
    var d :| d in oc && Lower(oc[d]) == key;
    var i :| 0 <= i < |other| && other[i].0 == d;
    assert Lower(other[i].1) == key;
    var k :| 0 <= k < |other| && Lower(other[k].1) == key && other[k].0 == index[key];
  }

  /** (c, c, label) for every code c of the list except 0. */
  function Diagonal(categories: map<int, string>, codes: seq<int>): seq<(int, int, string)>
    requires forall i :: 0 <= i < |codes| ==> codes[i] in categories
  {
    if codes == [] then []
    else (if codes[0] != 0 then [(codes[0], codes[0], categories[codes[0]])] else []) + Diagonal(categories, codes[1..])
  }

  lemma {:induction false} IntersectCodesDiagonal(categories: map<int, string>, codes: seq<int>, index: map<string, int>)
    requires forall i :: 0 <= i < |codes| ==> codes[i] in categories
    requires forall i :: 0 <= i < |codes| ==>
      Lower(categories[codes[i]]) in index && index[Lower(categories[codes[i]])] == codes[i]
    ensures IntersectCodes(categories, codes, index) == Diagonal(categories, codes)
  {
    if codes != [] {
      IntersectCodesDiagonal(categories, codes[1..], index);
    }
  }

  /** Intersecting a store with its own items gives back every
      (code, code, label) in ascending order, except for code 0, which the
      truthiness test drops. */
  lemma IntersectionWithItself(categories: map<int, string>, codes: seq<int>, other: seq<(int, string)>)
    requires StoreValid(categories, codes) && Enumerates(other, categories)
    ensures Intersection(categories, codes, other) == Diagonal(categories, codes)
  {
    var index := LabelIndex(other);
    LabelIndexKeys(other);
    forall j | 0 <= j < |codes|
      ensures Lower(categories[codes[j]]) in index && index[Lower(categories[codes[j]])] == codes[j]
    {
      var c := codes[j];
      var i :| 0 <= i < |other| && other[i].0 == c;
      assert Lower(other[i].1) == Lower(categories[c]);
      var key := Lower(categories[c]);
      var k :| 0 <= k < |other| && Lower(other[k].1) == key && other[k].0 == index[key];
      assert Lower(categories[other[k].0]) == key;
    }
    IntersectCodesDiagonal(categories, codes, index);
  }
}
