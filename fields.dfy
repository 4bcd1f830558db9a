/** The field objects of a survey schema (src/fields.py: Field, IntegerField,
    StringField and the category store that CategoriesMixin gives SingleField
    and MultipleField). How a field coerces an answer is in the modules
    Coercion and Choice, as functions of the field's attributes. */
module Fields {
  import opened Errors
  import opened Text
  import opened Coercion
  import opened Categories

  /** The class of a field; an integer field carries its converted bounds.
      SingleField and MultipleField inherit IntegerField with no bounds. */
  datatype Kind = IntegerKind(min: Option<int>, max: Option<int>) | StringKind | SingleKind | MultipleKind

  class Field {
    const name: string
    /** The name as the survey files it, name.lower().strip(); the name never
        changes, so it is computed once. */
    const key: string
    const title: string
    const kind: Kind
    /** The category store; empty for fields without categories. */
    var categories: map<int, string>
    var codes: seq<int>

    predicate IsCategorical()
    {
      kind.SingleKind? || kind.MultipleKind?
    }

    /** key is the normalised name. */
    predicate Named()
    {
      key == NormalName(name)
    }

    /** key is its own strip(), as every normalised name is. */
    predicate KeyStripped()
    {
      Strip(key) == key
    }

    /** A field keyed by its normalised name has a stripped key. */
    lemma NamedKeyStripped()
      requires Named()
      ensures KeyStripped()
    {
      NormalNameStripped(name);
    }

    ghost predicate Valid()
      reads this
    {
      Named() && Strip(title) == title &&
      (IsCategorical() ==> StoreValid(categories, codes)) &&
      (!IsCategorical() ==> categories == map[] && codes == [])
    }

    /** IntegerField.__init__ once both bounds are integers or unset; the title
        is stripped by Field.__init__. */
    constructor Integer(name: string, title: string, min: Option<int>, max: Option<int>)
      ensures this.name == name && this.title == Strip(title) && kind == IntegerKind(min, max)
      ensures key == NormalName(name)
      ensures Valid()
    {
      this.name := name;
      key := NormalName(name);
      this.title := Strip(title);
      kind := IntegerKind(min, max);
      categories := map[];
      codes := [];
      new;
      StripIdempotent(title);
    }

    /** StringField(name, title). */
    constructor String(name: string, title: string)
      ensures this.name == name && this.title == Strip(title) && kind == StringKind
      ensures key == NormalName(name)
      ensures Valid()
    {
      this.name := name;
      key := NormalName(name);
      this.title := Strip(title);
      kind := StringKind;
      categories := map[];
      codes := [];
      new;
      StripIdempotent(title);
    }

    /** A category field over a store that has already been validated. */
    constructor Categorical(name: string, title: string, multiple: bool, categories: map<int, string>, codes: seq<int>)
      requires StoreValid(categories, codes)
      ensures this.name == name && this.title == Strip(title)
      ensures key == NormalName(name)
      ensures kind == if multiple then MultipleKind else SingleKind
      ensures this.categories == categories && this.codes == codes
      ensures Valid()
    {
      this.name := name;
      key := NormalName(name);
      this.title := Strip(title);
      kind := if multiple then MultipleKind else SingleKind;
      this.categories := categories;
      this.codes := codes;
      new;
      StripIdempotent(title);
    }

    /** IntegerField(name, title, min, max): each bound that is not None goes
        through int(), and a bound int() rejects raises ValueError. */
    static method NewInteger(name: string, title: string, min: Raw, max: Raw) returns (r: Result<Field>)
      ensures r.Fail? <==> Bound(min).Fail? || Bound(max).Fail?
      ensures r.Fail? ==> r.error == ValueError
      ensures r.Ok? ==>
        (fresh(r.value) && r.value.Valid() && r.value.name == name && r.value.title == Strip(title) &&
         r.value.kind == IntegerKind(Bound(min).value, Bound(max).value))
    {
      var lo := Bound(min);
      if lo.Fail? {
        return Fail(lo.error);
      }
      var hi := Bound(max);
      if hi.Fail? {
        return Fail(hi.error);
      }
      var f := new Field.Integer(name, title, lo.value, hi.value);
      return Ok(f);
    }

    /** SingleField(name, title, categories) or MultipleField(...): build the
        store from the items of the categories dict, then keep its sorted codes.
        A construction error escapes and no field is made. */
    static method NewCategorical(name: string, title: string, multiple: bool, items: seq<(Raw, string)>)
      returns (r: Result<Field>)
      ensures r.Ok? <==> BuildCategories(items).Ok?
      ensures r.Fail? ==> r.error == BuildCategories(items).error
      ensures r.Ok? ==>
        (CodesConvert(items) && fresh(r.value) && r.value.Valid() && r.value.IsCategorical() &&
         r.value.name == name && r.value.title == Strip(title) &&
         r.value.kind == (if multiple then MultipleKind else SingleKind) &&
         r.value.categories == BuildCategories(items).value && r.value.codes == StoreCodes(items))
    {
      var built := GetCategories(items);
      if built.Fail? {
        return Fail(built.error);
      }
      BuildValid(items);
      var f := new Field.Categorical(name, title, multiple, built.value, StoreCodes(items));
      return Ok(f);
    }

    /** Assigning the categories property: the new items are validated by the
        same rules as at construction; on an error nothing changes, otherwise
        the map and the sorted codes are replaced together. */
    method SetCategories(items: seq<(Raw, string)>) returns (err: Option<ErrorKind>)
      requires Valid() && IsCategorical()
      modifies this
      ensures Valid()
      ensures BuildCategories(items).Fail? ==>
        (err == Some(BuildCategories(items).error) && categories == old(categories) && codes == old(codes))
      ensures BuildCategories(items).Ok? ==>
        (err == None && CodesConvert(items) &&
         categories == BuildCategories(items).value && codes == StoreCodes(items))
    {
      var built := GetCategories(items);
      if built.Fail? {
        return Some(built.error);
      }
      BuildValid(items);
      ghost var expected := BuildCategories(items).value;
      assert built.value == expected;
      categories := built.value;
      codes := StoreCodes(items);
      assert categories == expected;
      return None;
    }
  }
}
