/** The survey schema container (src/fields.py, SurveyStruct): an ordered list
    of fields plus a dictionary filing each field under its normalised name. */
module Survey {
  import opened Errors
  import opened Text
  import opened Fields

  /** The dictionary key of a field: name.lower().strip(), computed when the
      field was made. */
  function Key(f: Field): string
  {
    f.key
  }

  /** Every listed field's key is its own strip(). */
  ghost predicate AllKeysStripped(fields: seq<Field>)
  {
    forall i :: 0 <= i < |fields| ==> fields[i].KeyStripped()
  }

  /** No two fields of the list share a key. */
  ghost predicate DistinctKeys(fields: seq<Field>)
  {
    forall i, j :: 0 <= i < j < |fields| ==> Key(fields[i]) != Key(fields[j])
  }

  /** The list and the dictionary describe the same fields, each name once. */
  ghost predicate Consistent(fields: seq<Field>, dict: map<string, Field>)
  {
    (forall i :: 0 <= i < |fields| ==> Key(fields[i]) in dict && dict[Key(fields[i])] == fields[i]) &&
    (forall k :: k in dict ==> Key(dict[k]) == k && dict[k] in fields) &&
    DistinctKeys(fields) &&
    |dict| == |fields|
  }

  /** Under consistency a key is taken exactly when some listed field has it. */
  lemma KeyTaken(fields: seq<Field>, dict: map<string, Field>, k: string)
    ensures Consistent(fields, dict) ==> (k in dict <==> exists i :: 0 <= i < |fields| && Key(fields[i]) == k)
  {
    if Consistent(fields, dict) && k in dict {
      var f := dict[k];
      assert f in fields;
      var i :| 0 <= i < |fields| && fields[i] == f;
      assert Key(fields[i]) == k;
    }
  }

  /** Every key in the dictionary is its own strip(): it is the key of a listed
      field. */
  lemma KeysAreStripped(fields: seq<Field>, dict: map<string, Field>, k: string)
    requires Consistent(fields, dict) && AllKeysStripped(fields) && k in dict
    ensures Strip(k) == k
  {
    var f := dict[k];
    assert f in fields;
    var i :| 0 <= i < |fields| && fields[i] == f;
    assert fields[i].KeyStripped();
  }

  /** list.insert(i, x): the position where x lands in a list of length n. A
      negative i counts from the end; positions out of range are clamped. */
  function InsertPosition(i: int, n: nat): (p: nat)
    ensures p <= n
    ensures 0 <= i <= n ==> p == i
    ensures i > n ==> p == n
    ensures -(n as int) <= i < 0 ==> p == i + n
    ensures i < -(n as int) ==> p == 0
  {
    if i < 0 then (if i + n < 0 then 0 else i + n)
    else if i > n then n
    else i
  }

  /** fields with f placed at position p. */
  function InsertAt(fields: seq<Field>, p: nat, f: Field): (r: seq<Field>)
    requires p <= |fields|
    ensures |r| == |fields| + 1 && r[p] == f
    ensures forall j {:trigger r[j]} :: 0 <= j < p ==> r[j] == fields[j]
    ensures forall j {:trigger r[j]} :: p < j < |r| ==> r[j] == fields[j - 1]
  {
    fields[..p] + [f] + fields[p..]
  }

  /** The position of the first occurrence of f, the one list.remove deletes
      (fields compare by identity). */
  function IndexOf(fields: seq<Field>, f: Field): (i: nat)
    requires f in fields
    ensures i < |fields| && fields[i] == f
    ensures forall j :: 0 <= j < i ==> fields[j] != f
  {
    if fields[0] == f then 0 else 1 + IndexOf(fields[1..], f)
  }

  /** fields without position i; the others keep their relative order. */
  function Without(fields: seq<Field>, i: nat): (r: seq<Field>)
    requires i < |fields|
    ensures |r| == |fields| - 1
    ensures forall j {:trigger r[j]} :: 0 <= j < i ==> r[j] == fields[j]
    ensures forall j {:trigger r[j]} :: i <= j < |r| ==> r[j] == fields[j + 1]
  {
    fields[..i] + fields[i + 1..]
  }

  /** A field with a fresh key can be placed anywhere in the list. */
  lemma InsertConsistent(fields: seq<Field>, dict: map<string, Field>, p: nat, f: Field)
    requires Consistent(fields, dict) && p <= |fields| && Key(f) !in dict
    ensures Consistent(InsertAt(fields, p, f), dict[Key(f) := f])
  {
    var r := InsertAt(fields, p, f);
    var d := dict[Key(f) := f];
    forall i | 0 <= i < |r|
      ensures Key(r[i]) in d && d[Key(r[i])] == r[i]
    {
      if i != p {
        var j := if i < p then i else i - 1;
        assert r[i] == fields[j];
      }
    }
    forall k | k in d
      ensures Key(d[k]) == k && d[k] in r
    {
      if k != Key(f) {
        var g := dict[k];
        assert g in fields;
        var j :| 0 <= j < |fields| && fields[j] == g;
        if j < p {
          assert r[j] == g;
        } else {
          assert r[j + 1] == g;
        }
      }
    }
    forall i, j | 0 <= i < j < |r|
      ensures Key(r[i]) != Key(r[j])
    {
      if i == p {
        assert r[j] == fields[j - 1];
      } else if j == p {
        assert r[i] == fields[i];
      } else {
        var a := if i < p then i else i - 1;
        var b := if j < p then j else j - 1;
        assert r[i] == fields[a] && r[j] == fields[b] && a < b;
      }
    }
  }

  /** Dropping the field filed under k keeps the list and the dictionary in step. */
  lemma RemoveConsistent(fields: seq<Field>, dict: map<string, Field>, k: string)
    requires Consistent(fields, dict) && k in dict
    ensures Consistent(Without(fields, IndexOf(fields, dict[k])), dict - {k})
  {
    var f := dict[k];
    var x := IndexOf(fields, f);
    var r := Without(fields, x);
    var d := dict - {k};
    assert Key(fields[x]) == k;
    forall i | 0 <= i < |r|
      ensures Key(r[i]) in d && d[Key(r[i])] == r[i]
    {
      var j := if i < x then i else i + 1;
      assert r[i] == fields[j] && j != x;
      if j < x {
        assert Key(fields[j]) != Key(fields[x]);
      } else {
        assert Key(fields[x]) != Key(fields[j]);
      }
    }
    forall k2 | k2 in d
      ensures Key(d[k2]) == k2 && d[k2] in r
    {
      var g := dict[k2];
      assert g in fields;
      var j :| 0 <= j < |fields| && fields[j] == g;
      assert j != x;
      if j < x {
        assert r[j] == g;
      } else {
        assert r[j - 1] == g;
      }
    }
    forall i, j | 0 <= i < j < |r|
      ensures Key(r[i]) != Key(r[j])
    {
      var a := if i < x then i else i + 1;
      var b := if j < x then j else j + 1;
      assert r[i] == fields[a] && r[j] == fields[b] && a < b;
    }
  }

  /** Placing a field with a stripped key keeps every key stripped. */
  lemma InsertStripped(fields: seq<Field>, p: nat, f: Field)
    requires AllKeysStripped(fields) && p <= |fields| && f.KeyStripped()
    ensures AllKeysStripped(InsertAt(fields, p, f))
  {
    var r := InsertAt(fields, p, f);
    forall j | 0 <= j < |r| ensures r[j].KeyStripped() {
      if j < p {
        assert r[j] == fields[j];
      } else if j > p {
        assert r[j] == fields[j - 1];
      }
    }
  }

  /** Dropping a field keeps every remaining key stripped. */
  lemma WithoutStripped(fields: seq<Field>, i: nat)
    requires AllKeysStripped(fields) && i < |fields|
    ensures AllKeysStripped(Without(fields, i))
  {
    var r := Without(fields, i);
    forall j | 0 <= j < |r| ensures r[j].KeyStripped() {
      if j < i {
        assert r[j] == fields[j];
      } else {
        assert r[j] == fields[j + 1];
      }
    }
  }

  /** The key remove pops as written: name.lower(), without the strip() that
      filing and lookup apply. */
  function PoppedKeyAsWritten(name: string): (k: string)
    ensures |k| == |name|
  {
    Lower(name)
  }

  /** As written, remove finds a field whose lower-cased name has whitespace
      at either end and then fails to pop it: no key in the dictionary carries
      such whitespace, so the pop raises KeyError. */
  lemma RemoveAsWrittenRaisesKeyError(fields: seq<Field>, dict: map<string, Field>, name: string)
    requires Consistent(fields, dict) && AllKeysStripped(fields)
    requires PoppedKeyAsWritten(name) != NormalName(name)
    ensures PoppedKeyAsWritten(name) !in dict
  {
    PoppedKeyFound(fields, dict, name);
  }

  /** When the popped key is in the dictionary it is the normalised name. */
  lemma PoppedKeyFound(fields: seq<Field>, dict: map<string, Field>, name: string)
    requires Consistent(fields, dict) && AllKeysStripped(fields)
    ensures PoppedKeyAsWritten(name) in dict ==> PoppedKeyAsWritten(name) == NormalName(name)
  {
    if Lower(name) in dict {
      KeysAreStripped(fields, dict, Lower(name));
    }
  }

  /** The name " q1" is found by lookup (its key is "q1") but popped as " q1". */
  lemma PaddedNameExample()
    ensures NormalName(" q1") == "q1"
    ensures PoppedKeyAsWritten(" q1") == " q1"
  {
    var s := " q1";
    assert Lower(s) == s by {
      assert forall i :: 0 <= i < |s| ==> Lower(s)[i] == s[i];
    }
    assert s[1..] == "q1";
    assert TrimLeft("q1") == "q1";
    assert TrimLeft(s) == "q1";
    assert TrimRight("q1") == "q1";
  }

  /** A key already filed for init[..i] makes init[i] a repeat. */
  lemma DuplicateFound(init: seq<Field>, i: nat, dict: map<string, Field>)
    requires i < |init| && Consistent(init[..i], dict) && Key(init[i]) in dict
    ensures !DistinctKeys(init)
  {
    KeyTaken(init[..i], dict, Key(init[i]));
    var j :| 0 <= j < i && Key(init[..i][j]) == Key(init[i]);
    assert init[..i][j] == init[j];
  }

  /** A key not yet filed for init[..i] extends the distinct prefix by one. */
  lemma FreshKeyExtends(init: seq<Field>, i: nat, dict: map<string, Field>)
    requires i < |init| && Consistent(init[..i], dict) && DistinctKeys(init[..i]) && Key(init[i]) !in dict
    ensures init[..i + 1] == init[..i] + [init[i]]
    ensures DistinctKeys(init[..i + 1])
  {
    assert init[..i + 1] == init[..i] + [init[i]];
    var p := init[..i + 1];
    forall a, b | 0 <= a < b < |p| ensures Key(p[a]) != Key(p[b]) {
      assert p[a] == init[..i][a];
      if b < i {
        assert p[b] == init[..i][b];
      } else {
        assert Key(init[..i][a]) in dict;
      }
    }
  }

  /** Lookup ignores case: 'Q1' and 'q1' are filed under the same key
      (tests_field_scheme.py, survey.q1 for the field named 'Q1'). */
  lemma CaseInsensitiveNameExample()
    ensures NormalName("Q1") == "q1" && NormalName("q1") == "q1"
  {
    assert Lower("Q1") == "q1" by {
      assert Lower("Q1")[0] == 'q' && Lower("Q1")[1] == '1';
    }
    assert Lower("q1") == "q1" by {
      assert Lower("q1")[0] == 'q' && Lower("q1")[1] == '1';
    }
    assert "q1"[1..] == "1";
    assert TrimLeft("q1") == "q1";
    assert TrimRight("q1") == "q1";
  }

  class SurveyStruct {
    var fields: seq<Field>
    var fieldDict: map<string, Field>

    ghost predicate Valid()
      reads this
    {
      Consistent(fields, fieldDict) && AllKeysStripped(fields)
    }

    /** SurveyStruct() with no fields. */
    constructor ()
      ensures Valid() && fields == [] && fieldDict == map[]
    {
      fields := [];
      fieldDict := map[];
    }

    /** _add_to_dict: file the field under its key unless the key is taken. */
    method AddToDict(f: Field) returns (err: Option<ErrorKind>)
      modifies this
      ensures fields == old(fields)
      ensures Key(f) in old(fieldDict) ==> err == Some(DuplicateFieldName) && fieldDict == old(fieldDict)
      ensures Key(f) !in old(fieldDict) ==> err == None && fieldDict == old(fieldDict)[Key(f) := f]
    {
      var k := f.key;
      if k in fieldDict {
        return Some(DuplicateFieldName);
      }
      fieldDict := fieldDict[k := f];
      return None;
    }

    /** append(field): a field whose key is taken raises DuplicateFieldNameError
        and changes nothing; otherwise it goes at the end and into the dictionary. */
    method Append(f: Field) returns (err: Option<ErrorKind>)
      requires Valid() && f.KeyStripped()
      modifies this
      ensures Valid()
      ensures Key(f) in old(fieldDict) ==>
        (err == Some(DuplicateFieldName) && fields == old(fields) && fieldDict == old(fieldDict))
      ensures Key(f) !in old(fieldDict) ==>
        (err == None && fields == old(fields) + [f] && fieldDict == old(fieldDict)[Key(f) := f])
    {
      ghost var fs := fields;
      err := AddToDict(f);
      if err.Some? {
        return;
      }
      fields := fields + [f];
      InsertConsistent(fs, old(fieldDict), |fs|, f);
      assert InsertAt(fs, |fs|, f) == fs + [f];
      InsertStripped(fs, |fs|, f);
    }

    /** insert(i, field): the same duplicate check, then list.insert(i, field). */
    method Insert(i: int, f: Field) returns (err: Option<ErrorKind>)
      requires Valid() && f.KeyStripped()
      modifies this
      ensures Valid()
      ensures Key(f) in old(fieldDict) ==>
        (err == Some(DuplicateFieldName) && fields == old(fields) && fieldDict == old(fieldDict))
      ensures Key(f) !in old(fieldDict) ==>
        (err == None && fields == InsertAt(old(fields), InsertPosition(i, |old(fields)|), f) &&
         fieldDict == old(fieldDict)[Key(f) := f])
    {
      ghost var fs := fields;
      err := AddToDict(f);
      if err.Some? {
        return;
      }
      var p := InsertPosition(i, |fields|);
      fields := InsertAt(fields, p, f);
      InsertConsistent(fs, old(fieldDict), p, f);
      InsertStripped(fs, p, f);
    }

    /** _get_from_dict and attribute access by name: the field filed under
        name.lower().strip(), or FieldDoesNotExist. */
    function Lookup(name: string): (r: Result<Field>)
      reads this
      ensures r.Fail? ==> r.error == FieldDoesNotExist
      ensures Valid() ==> (r.Ok? <==> exists i :: 0 <= i < |fields| && Key(fields[i]) == NormalName(name))
      ensures Valid() && r.Ok? ==> r.value in fields && Key(r.value) == NormalName(name)
    {
      var k := NormalName(name);
      KeyTaken(fields, fieldDict, k);
      if k in fieldDict then Ok(fieldDict[k]) else Fail(FieldDoesNotExist)
    }

    /** remove(field_name), popping the key that lookup uses. A missing name
        raises FieldDoesNotExist and changes nothing; otherwise the named field
        leaves the dictionary and the list, the others keeping their order. */
    method Remove(name: string) returns (err: Option<ErrorKind>)
      requires Valid()
      modifies this
      ensures Valid()
      ensures NormalName(name) !in old(fieldDict) ==>
        (err == Some(FieldDoesNotExist) && fields == old(fields) && fieldDict == old(fieldDict))
      ensures NormalName(name) in old(fieldDict) ==>
        (err == None && fieldDict == old(fieldDict) - {NormalName(name)} &&
         fields == Without(old(fields), IndexOf(old(fields), old(fieldDict)[NormalName(name)])))
    {
      var k := NormalName(name);
      if k !in fieldDict {
        return Some(FieldDoesNotExist);
      }
      var x := IndexOf(fields, fieldDict[k]);
      RemoveConsistent(fields, fieldDict, k);
      WithoutStripped(fields, x);
      fields := Without(fields, x);
      fieldDict := fieldDict - {k};
      return None;
    }

    /** remove(field_name) as written: the lookup strips the name, the pop does
        not, so a name with whitespace around it is found and then raises
        KeyError, changing nothing. */
    method RemoveAsWritten(name: string) returns (err: Option<ErrorKind>)
      requires Valid()
      modifies this
      ensures Valid()
      ensures NormalName(name) !in old(fieldDict) ==>
        (err == Some(FieldDoesNotExist) && fields == old(fields) && fieldDict == old(fieldDict))
      ensures NormalName(name) in old(fieldDict) && PoppedKeyAsWritten(name) != NormalName(name) ==>
        (err == Some(KeyError) && fields == old(fields) && fieldDict == old(fieldDict))
      ensures NormalName(name) in old(fieldDict) && PoppedKeyAsWritten(name) == NormalName(name) ==>
        (err == None && fieldDict == old(fieldDict) - {NormalName(name)} &&
         fields == Without(old(fields), IndexOf(old(fields), old(fieldDict)[NormalName(name)])))
    {
      var k := NormalName(name);
      if k !in fieldDict {
        return Some(FieldDoesNotExist);
      }
      var f := fieldDict[k];
      var popped := PoppedKeyAsWritten(name);
      PoppedKeyFound(fields, fieldDict, name);
      if popped !in fieldDict {
        return Some(KeyError);
      }
      var x := IndexOf(fields, f);
      RemoveConsistent(fields, fieldDict, k);
      WithoutStripped(fields, x);
      fields := Without(fields, x);
      fieldDict := fieldDict - {popped};
      return None;
    }

    /** __getitem__(i): list indexing, negative i counting from the end. */
    function GetItem(i: int): (r: Result<Field>)
      reads this
      ensures r.Ok? <==> -|fields| <= i < |fields|
      ensures r.Fail? ==> r.error == IndexError
      ensures r.Ok? ==> r.value in fields
      ensures r.Ok? && 0 <= i ==> r.value == fields[i]
      ensures r.Ok? && i < 0 ==> r.value == fields[i + |fields|]
    {
      if 0 <= i < |fields| then Ok(fields[i])
      else if -|fields| <= i < 0 then Ok(fields[i + |fields|])
      else Fail(IndexError)
    }

    /** __len__: the number of fields, which is also the number of names filed. */
    function Length(): (n: nat)
      reads this
      ensures n == |fields|
      ensures Valid() ==> n == |fieldDict|
    {
      |fields|
    }

    /** __eq__: the two dictionaries are equal, that is they have the same
        keys and file the same field object under each. */
    function Equals(other: SurveyStruct): bool
      reads this, other
    {
      (forall k :: k in fieldDict ==> k in other.fieldDict && fieldDict[k] == other.fieldDict[k]) &&
      (forall k :: k in other.fieldDict ==> k in fieldDict)
    }

    /** SurveyStruct(fields): each field is appended in turn; a repeated key
        raises DuplicateFieldNameError and no schema is made. */
    static method FromFields(init: seq<Field>) returns (r: Result<SurveyStruct>)
      requires AllKeysStripped(init)
      ensures r.Ok? <==> DistinctKeys(init)
      ensures r.Fail? ==> r.error == DuplicateFieldName
      ensures r.Ok? ==> fresh(r.value) && r.value.Valid() && r.value.fields == init
    {
      var s := new SurveyStruct();
      var i := 0;
      while i < |init|
        invariant 0 <= i <= |init|
        invariant fresh(s) && s.Valid() && s.fields == init[..i]
      {
        ghost var before := s.fieldDict;
        assert init[i].KeyStripped();
        var err := s.Append(init[i]);
        if err.Some? {
          assert Key(init[i]) in before;
          DuplicateFound(init, i, before);
          return Fail(DuplicateFieldName);
        }
        assert Key(init[i]) !in before && s.fields == init[..i] + [init[i]];
        FreshKeyExtends(init, i, before);
        i := i + 1;
      }
      assert init[..i] == init;
      assert s.fields == init && Consistent(s.fields, s.fieldDict);
      return Ok(s);
    }
  }

  /** Two valid schemas are equal exactly when they hold the same field
      objects, whatever their order. */
  lemma EqualsSameFields(a: SurveyStruct, b: SurveyStruct)
    requires a.Valid() && b.Valid()
    ensures a.Equals(b) <==> forall f :: f in a.fields <==> f in b.fields
  {
    if a.Equals(b) {
      forall f | f in a.fields ensures f in b.fields {
        var i :| 0 <= i < |a.fields| && a.fields[i] == f;
        assert a.fieldDict[Key(f)] == f;
      }
      forall f | f in b.fields ensures f in a.fields {
        var i :| 0 <= i < |b.fields| && b.fields[i] == f;
        assert b.fieldDict[Key(f)] == f;
      }
    }
    if forall f :: f in a.fields <==> f in b.fields {
      forall k | k in a.fieldDict ensures k in b.fieldDict && a.fieldDict[k] == b.fieldDict[k] {
        var f := a.fieldDict[k];
        assert f in b.fields;
        var i :| 0 <= i < |b.fields| && b.fields[i] == f;
      }
      forall k | k in b.fieldDict ensures k in a.fieldDict {
        var f := b.fieldDict[k];
        assert f in a.fields;
        var i :| 0 <= i < |a.fields| && a.fields[i] == f;
      }
    }
  }

  /** A negative index reaches the same field as its non-negative partner. */
  lemma GetItemNegative(s: SurveyStruct, i: int)
    requires 0 <= i < |s.fields|
    ensures s.GetItem(i - |s.fields|) == s.GetItem(i)
  {
  }
}
