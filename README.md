# Survey field schema

A Dafny model of the field schema of a survey data collector (`src/fields.py`). A survey is
an ordered list of fields. Each field has a name and a title, and it turns a raw
questionnaire answer into a canonical value, into "no answer", or into a validation error:

- an integer field parses the answer with Python 2 `int()` and checks optional bounds;
- a string field turns the answer into its string form;
- a single-choice field accepts one code of its category store;
- a multiple-choice field accepts a list of such codes.

The category store is a map from integer code to label plus the ascending list of its codes.
It is built from a categories dictionary whose codes must convert to integers and whose labels
must be distinct ignoring case. The survey container (`SurveyStruct`) keeps the list of fields
together with a dictionary that files every field under its name lowered and stripped.

Modules, in dependency order:

- `Errors` (`errors.dfy`): the exception kinds of `src/exceptions.py` that the modelled code raises, plus built-in ones
  (`KeyError`, `TypeError`, `ValueError`, `IndexError`), and the `Option`, `Result` and
  `Coerced` (value / absent / failure) wrappers.
- `Text` (`text.dfy`): the Python 2 string operations the schema uses: `isspace`, `strip`,
  `lower` on ASCII, `int()` of a string, and `str()` of an integer.
- `Coercion` (`coercion.dfy`): the raw answer datatype, `int()` of an answer, the bounds of
  an integer field, and the integer and string coercions.
- `Categories` (`categories.dfy`): the category store of `CategoriesMixin`. It covers
  building the store (a function, plus a method with the source's loop), the sorted codes,
  `get_print_categories` and `get_categories_intersection`.
- `Choice` (`choice.dfy`): `SingleField` and `MultipleField` coercion and printing. The
  multiple-choice loop is a method proved against a specification function.
- `Fields` (`fields.dfy`): the field objects as a class. The category store is mutable
  state, and the categories setter is a method on it.
- `Survey` (`survey.dfy`): `SurveyStruct` as a class over a `seq<Field>` and a
  `map<string, Field>`, with the invariant that the two describe the same fields.

A field's coercion is a function of the field's attributes (bounds, codes), so that lemmas
can relate calls. The field class holds those attributes.

## Model

| member | source | states |
|---|---|---|
| Text.Strip | src/fields.py:19 | `str.strip()` as a definition, whitespace being the byte-string `isspace` set; `StripEdges`, `StripKeeps`, `StripPadded` and `StripIdempotent` state its properties |
| Text.Lower | src/fields.py:114 | `str.lower()` on ASCII letters; the result has the argument's length |
| Text.NormalName | src/fields.py:203 | `name.lower().strip()`, the key a field is filed and looked up under, as a definition; `NormalNameStripped` states its property |
| Text.ParseInt | src/fields.py:68 | `int()` of a string as a definition: whitespace around an optional sign and decimal digits; `ParseDecimalString`, `ParseRejectsForeignChar` and `ParseRejectsBlank` state its properties |
| Text.DecimalString | src/fields.py:96 | `str()` of an integer as a definition; `ParseDecimalString` proves it parses back |
| Text.TrimLeftShape | src/fields.py:19 | stripping the left end removes exactly a blank prefix and leaves a string that does not start with whitespace |
| Text.TrimRightShape | src/fields.py:19 | stripping the right end removes exactly a blank suffix and leaves a string that does not end with whitespace |
| Text.StripEdges | src/fields.py:19 | `strip()` is no longer than its argument and has whitespace at neither end |
| Text.StripPadded | src/fields.py:203 | whitespace added around a string does not change its `strip()` |
| Text.StripIdempotent | src/fields.py:19 | `strip()` is idempotent, so a field title is already stripped |
| Text.StripKeeps | src/fields.py:19 | every non-whitespace character of a string survives `strip()` |
| Text.NormalNameStripped | src/fields.py:203 | a name lowered and stripped is its own `strip()` |
| Text.ParseDecimalRoundTrip | src/fields.py:68 | `int()` of the decimal string of n, with any whitespace around it, is n |
| Text.ParseDecimalString | src/fields.py:68 | `int(str(n)) == n` for every integer n |
| Text.ParseRejectsForeignChar | src/fields.py:68-69 | a string holding a decimal point, a letter or any other non-digit, non-sign, non-space character is rejected by `int()` |
| Text.ParseRejectsBlank | src/fields.py:68-69 | a blank string is rejected by `int()` |
| Coercion.Truncate | src/fields.py:68 | `int()` of a native fraction truncates toward zero: the result lies within 1 of it, on the zero side |
| Coercion.PyInt | src/fields.py:68 | Python 2 `int()` of a raw answer as a definition: a string is parsed, a native integer kept, a native fraction truncated, None rejected; `Truncate`, `IntegerValue` and the `Text` parse lemmas state its properties |
| Coercion.InInterval | src/fields.py:57-64 | `_in_min_max_interval` as a definition: a bound is checked only when it is set and non-zero; `IntegerBounds` and `ZeroBoundIgnored` state what it admits |
| Coercion.Bound | src/fields.py:50-55 | a bound is unset exactly when it is None; otherwise it is `int()` of the bound, and a bound `int()` rejects is a ValueError |
| Coercion.IntegerValue | src/fields.py:57-75 | the intended `get_field_value`: an accepted value is `int()` of the answer; the answer is absent exactly when `int()` rejects it and it is falsy; every other failure is a ValidationError |
| Coercion.IntegerValueAsWritten | src/fields.py:57-75 | `get_field_value` as written: every failure is a ValidationError or a TypeError, and a TypeError only when no minimum is set |
| Coercion.IntegerAsWrittenAgrees | src/fields.py:61-63 | the code as written equals the intended coercion exactly when it is not the case that no minimum is set and a parsed value exceeds a non-zero maximum; in that case it raises TypeError where ValidationError is intended |
| Coercion.MaxOnlyTypeErrorExample | src/fields.py:61-63 | with no minimum and a maximum of 10, 11 raises TypeError as written; with a minimum of 0 it is a ValidationError, which is also the intended outcome |
| Coercion.IntegerBounds | src/fields.py:57-64 | intended coercion, each bound on its own: a parsed value v is accepted, and returned unchanged, exactly when it is not below a set non-zero minimum and not above a set non-zero maximum; otherwise a ValidationError |
| Coercion.IntegerBothBounds | src/fields.py:57-64 | with non-zero bounds lo and hi, a parsed value v is accepted exactly when lo <= v <= hi, and the code as written gives the same outcome |
| Coercion.IntegerMinOnlyExample | src/fields.py:57-59 | with only a minimum of 1, `'0'` is a ValidationError |
| Coercion.ZeroBoundIgnored | src/fields.py:58-61 | under the intended coercion a bound of 0 behaves exactly like an unset bound; as written this holds for the maximum |
| Coercion.IntegerIdempotent | src/fields.py:66-75 | re-coercing an accepted integer, natively or as its decimal string, gives the same integer |
| Coercion.IntegerEmpty | src/fields.py:69-73 | None and `''` are absent under any bounds; a blank non-empty string is a ValidationError |
| Coercion.IntegerFractionAsymmetry | src/fields.py:66-73 | a string with a decimal point is a ValidationError, while a native fraction is truncated |
| Coercion.IntegerAcceptedExample | src/tests/tests_field_scheme.py:18 | `'5'` coerces to 5 |
| Coercion.IntegerRejectedExamples | src/tests/tests_field_scheme.py:19-22 | `''` is absent; `'not int str'` and `'15.5'` are ValidationErrors |
| Coercion.IntegerNativeExamples | src/tests/tests_field_scheme.py:21-26 | 15.5 coerces to 15; -11 is rejected with bounds -10 and 10 |
| Coercion.IntegerAtBoundExample | src/tests/tests_field_scheme.py:23-24 | `'-10'` is accepted with bounds -10 and 10 |
| Coercion.StringValue | src/fields.py:93-96 | a falsy answer becomes `''`, and a string answer is returned as is |
| Coercion.StringIdempotent | src/fields.py:93-96 | coercing the canonical string again gives it back |
| Coercion.StringOfInteger | src/fields.py:93-96 | the string of a non-zero integer coerces back to that integer in an integer field; 0 becomes `''` |
| Categories.InsertCode | src/fields.py:103 | inserting a code into an ascending list keeps it ascending, and the elements are the old ones plus the code |
| Categories.SortCodes | src/fields.py:103 | the sorted codes are ascending and hold exactly the given codes |
| Categories.AscendingUnique | src/fields.py:103 | two ascending lists with the same elements are equal, so the stored codes are the one sorted list of the keys |
| Categories.CodeListed | src/fields.py:103 | every listed code is a key of the store |
| Categories.LowerLabels | src/fields.py:114-118 | the labels seen so far, lowered, one per item and in item order |
| Categories.BuildCategories | src/fields.py:105-119 | a failed build fails with CategoryCodeError or with the duplicate-category error, nothing else |
| Categories.CodeKind | src/fields.py:110-113 | with labels distinct ignoring case, a code `int()` rejects makes construction fail with CategoryCodeError |
| Categories.DupKind | src/fields.py:114-116 | with every code converting, two labels equal ignoring case make construction fail with the duplicate-category error |
| Categories.ConvertedCodes | src/fields.py:111 | each converted code is `int()` of its item's code |
| Categories.StoreCodes | src/fields.py:103 | the stored codes are ascending |
| Categories.BuildSucceeds | src/fields.py:105-119 | the build succeeds exactly when every code converts and no two labels are equal under `lower()`, so the membership check against earlier labels is all-pairs uniqueness |
| Categories.BuildKeys | src/fields.py:111-117 | the keys of the store are exactly the converted codes |
| Categories.BuildLabelsFromItems | src/fields.py:117 | every stored label is the unmodified label of an item whose code converts to its key |
| Categories.BuildLastLabel | src/fields.py:117 | an item whose code no later item repeats has its label stored under its code, since the last writer wins |
| Categories.BuildDistinct | src/fields.py:114-116 | the labels of a built store are distinct ignoring case |
| Categories.BuildValid | src/fields.py:100-103 | a built store with its sorted codes satisfies the store invariant: codes ascending, the codes are exactly the keys, labels distinct ignoring case |
| Categories.BuildFailurePersists | src/fields.py:113-116 | once a prefix of the items fails, the whole build fails with the same error |
| Categories.BuildStep | src/fields.py:108-118 | one more item extends the result by one loop step: failure, duplicate check, or insertion |
| Categories.GetCategories | src/fields.py:105-119 | the loop returns exactly the built store or its error |
| Categories.BuildExample | src/tests/tests_field_scheme.py:32-33 | codes 1 and 2 with distinct labels give that map and the codes [1, 2] |
| Categories.BuildPair | src/fields.py:105-119 | two items whose codes convert and whose labels differ ignoring case give the map of both, the second written last, and the sorted pair of codes |
| Categories.BuildDuplicateExample | src/fields.py:114-116 | labels `'Yes'` and `'YES'` make construction fail |
| Categories.PrintCategories | src/fields.py:149-150 | the pairs are in strictly ascending code order, each is a (code, label) of the store, and every category appears |
| Categories.LabelIndex | src/fields.py:126-127 | the dictionary from each other label, lowered, to its code, as a definition; `LabelIndexKeys` and `LabelIndexLastWriter` state its properties |
| Categories.LabelIndexKeys | src/fields.py:126-127 | every other label, lowered, is a key of the label index, and every key maps to the code of an other item with that label |
| Categories.LabelIndexLastWriter | src/fields.py:126-127 | when labels repeat ignoring case, the last item's code wins |
| Categories.IntersectCodes | src/fields.py:128-133 | the intersection is no longer than the codes and holds only own codes |
| Categories.IntersectCodesMembers | src/fields.py:129-132 | a triple is in the intersection exactly when its code is own, its label is the own label, and the other label matches with a non-zero other code |
| Categories.Intersection | src/fields.py:121-133 | `get_categories_intersection` as a definition over the sorted codes; `IntersectionMembers`, `IntersectionAscending`, `IntersectionSameLabels` and `IntersectionWithItself` state its properties |
| Categories.IntersectionMembers | src/fields.py:121-133 | the same membership statement for the intersection with another categories dictionary |
| Categories.IntersectionAscending | src/fields.py:129 | the triples come in strictly ascending own-code order |
| Categories.IndexFindsLabel | src/fields.py:126-130 | a label the other map holds, ignoring case, is found in the label index under a non-zero code whose label matches |
| Categories.IntersectionSameLabels | src/tests/tests_field_scheme.py:39-43 | against a map holding every own label ignoring case, with no code 0, every own code appears, in order, paired with an other code whose label matches |
| Categories.IntersectionWithItself | src/fields.py:121-133 | the intersection of a store with itself pairs every code with itself |
| Choice.SingleValue | src/fields.py:155-163 | a value is accepted exactly when `int()` accepts the answer and the result is a code, and then it is that code; absent exactly when `int()` rejects a falsy answer; otherwise a ValidationError |
| Choice.SingleIdempotent | src/fields.py:155-163 | re-coercing an accepted code, natively or as its decimal string, gives it back |
| Choice.SinglePrintValue | src/fields.py:165-167 | the printed value is the label of the coerced code; a validation error propagates; an absent answer is a KeyError; on a valid store it succeeds exactly when the coercion gives a value |
| Choice.SingleExamples | src/tests/tests_field_scheme.py:34-38 | `'4'` coerces to 4 and prints as `'Category 4'`; `''` is absent; 11 is rejected |
| Choice.Accepted | src/fields.py:174-182 | the values the multiple-choice loop accepts, or the ValidationError it raises, as a definition; `AcceptedIsKept` relates it to `Kept` |
| Choice.MultipleSpec | src/fields.py:172-185 | the multiple-choice result as a definition; `MultipleResult` states it in terms of `Kept` and `MultipleValue` is proved to compute it |
| Choice.MultipleValue | src/fields.py:172-185 | the loop returns exactly the specification of the multiple-choice result |
| Choice.Kept | src/fields.py:174-182 | every kept value is a code |
| Choice.KeptAppend | src/fields.py:174-182 | one more element extends the kept codes by its own contribution |
| Choice.AcceptedIsKept | src/fields.py:172-185 | the loop fails exactly when some element fails, and always with ValidationError; otherwise it has accepted the kept codes in input order |
| Choice.MultipleResult | src/fields.py:172-185 | the result is a ValidationError if any element fails, else "no answer" when no code is kept, else the kept codes in input order |
| Choice.MultipleAllEmpty | src/fields.py:183-184 | a list of empty answers is "no answer" |
| Choice.MultipleMixedExample | src/tests/tests_field_scheme.py:50 | `[1, '4', '5', '', 6.0]` gives [1, 4, 5, 6] |
| Choice.MultipleEmptyExample | src/tests/tests_field_scheme.py:51 | `['']` is "no answer" |
| Choice.MultipleRejectedExample | src/tests/tests_field_scheme.py:52 | `[1, 23, 5]` is a ValidationError |
| Choice.MultiplePrintValue | src/fields.py:187-189 | the labels of the accepted codes in order; a validation error propagates; an absent result is a TypeError; on a valid store it succeeds exactly when the coercion gives a value |
| Fields.Field.NamedKeyStripped | src/fields.py:203 | a field keyed by its lowered and stripped name has a key that is its own `strip()` |
| Fields.Field.Integer | src/fields.py:17-19 | an integer field stores its name, its stripped title and its bounds, with its key and an empty store |
| Fields.Field.String | src/fields.py:17-19 | a string field stores its name and its stripped title |
| Fields.Field.Categorical | src/fields.py:100-103 | a category field over a valid store keeps that store |
| Fields.Field.NewInteger | src/fields.py:48-55 | construction fails with ValueError exactly when a bound that is not None is rejected by `int()`; otherwise the field has the converted bounds |
| Fields.Field.NewCategorical | src/fields.py:100-119 | construction succeeds exactly when the store builds; the field then holds the built map and its sorted codes; otherwise the build error escapes |
| Fields.Field.SetCategories | src/fields.py:139-142 | on a build error nothing changes and the error is returned; otherwise map and codes are replaced by the new store, and the store invariant holds either way |
| Survey.KeyTaken | src/fields.py:203-204 | under the container invariant a key is taken exactly when some listed field has it |
| Survey.KeysAreStripped | src/fields.py:203 | every key in the dictionary is its own `strip()` |
| Survey.InsertPosition | src/fields.py:227 | `list.insert` position: i when 0 <= i <= n, n when i > n, i + n for a negative i down to -n, and 0 below that |
| Survey.InsertAt | src/fields.py:227 | the new list is one longer, holds the field at the position and keeps every other field in order |
| Survey.IndexOf | src/fields.py:232 | the first position holding the field |
| Survey.Without | src/fields.py:232 | the list is one shorter and keeps every other field in order |
| Survey.InsertConsistent | src/fields.py:202-208 | filing a field with a fresh key and placing it anywhere keeps the list and the dictionary consistent |
| Survey.RemoveConsistent | src/fields.py:229-232 | dropping the filed field from both keeps them consistent |
| Survey.InsertStripped | src/fields.py:225-227 | inserting a field whose key is its own `strip()` keeps every key so |
| Survey.WithoutStripped | src/fields.py:232 | dropping a field keeps every remaining key its own `strip()` |
| Survey.PoppedKeyFound | src/fields.py:231 | when the key popped as written is in the dictionary, it equals the normalised name |
| Survey.RemoveAsWrittenRaisesKeyError | src/fields.py:229-232 | when the lowered name differs from the lowered and stripped name, it is not a key, so the pop raises KeyError |
| Survey.PaddedNameExample | src/fields.py:230-231 | `' q1'` is looked up as `'q1'` but popped as `' q1'` |
| Survey.DuplicateFound | src/fields.py:199-200 | a key already filed for an earlier field makes the list hold a repeat |
| Survey.FreshKeyExtends | src/fields.py:199-200 | a key not yet filed extends the prefix of distinct keys by one |
| Survey.CaseInsensitiveNameExample | src/tests/tests_field_scheme.py:67-73 | `'Q1'` and `'q1'` are filed under the same key `'q1'` |
| Survey.SurveyStruct.constructor | src/fields.py:197-198 | an empty survey is consistent |
| Survey.SurveyStruct.AddToDict | src/fields.py:202-208 | a taken key is a duplicate-name error and leaves the dictionary alone; otherwise the field is filed under its key |
| Survey.SurveyStruct.Append | src/fields.py:221-223 | a taken key is a duplicate-name error with no change; otherwise the field is at the end of the list and filed; consistency is kept |
| Survey.SurveyStruct.Insert | src/fields.py:225-227 | a taken key is a duplicate-name error with no change; otherwise the field is at the `list.insert` position and filed; consistency is kept |
| Survey.SurveyStruct.Lookup | src/fields.py:210-215 | the field filed under the lowered and stripped name, found exactly when some listed field has that key; otherwise FieldDoesNotExist |
| Survey.SurveyStruct.Remove | src/fields.py:229-232 | an unknown name is FieldDoesNotExist with no change; otherwise the named field leaves the dictionary and the list, the others keeping their order |
| Survey.SurveyStruct.RemoveAsWritten | src/fields.py:229-232 | the source's remove: as Remove, except that a name whose lowering and stripping differ is found and then KeyError, with no change |
| Survey.SurveyStruct.GetItem | src/fields.py:234-235 | list indexing: defined exactly for -n <= i < n, and then the field at i, or at i + n for a negative i; otherwise IndexError |
| Survey.SurveyStruct.Length | src/fields.py:240-241 | the number of fields, which equals the number of filed names |
| Survey.SurveyStruct.FromFields | src/fields.py:193-200 | a survey is made exactly when the fields have distinct keys, and it then lists them in order; otherwise DuplicateFieldNameError |
| Survey.SurveyStruct.Equals | src/fields.py:218-219 | `__eq__` as a definition: the two dictionaries have the same keys and file the same field object under each; `EqualsSameFields` states what it means for the lists |
| Survey.EqualsSameFields | src/fields.py:218-219 | two consistent surveys are equal exactly when they hold the same field objects, in whatever order |
| Survey.GetItemNegative | src/fields.py:234-235 | index i - n reaches the same field as i |

## Left out

- `FloatField` (src/fields.py:78-89): floating-point parsing and comparison are not modelled.
- `__str__`, `__repr__`, `print_type` and the text of exception messages are not modelled. The one message whose formatting raises, the over-maximum message of an integer field, is modelled by `Coercion.IntegerValueAsWritten` (see Findings).
- `Field.get_print_value` and `Field.get_field_value` of the base class return their argument; they are not modelled.
- Integer and string fields do not override `get_print_value` (src/fields.py:31-35), so they print their argument unchanged, coerced or not. That identity is not modelled.
- `__iter__` returns the list itself; the model exposes the `fields` sequence instead.
- `__getattr__` is the same as `Lookup`, which stands for it.
- The categories getter returns the map; the model reads the `categories` field.
- The categories deleter is not modelled. Without a delete operation, deletion cannot happen.
- `Fields.Field.SetCategories`: the setter as written reads an undefined name and calls `list[...]`, so it cannot run. The model validates the new categories by the construction rules and then replaces the map and the codes together.
- `Categories.BuildCategories`: the duplicate-label branch as written raises NameError, because it uses an unqualified class and an undefined `value`. The model calls it the duplicate-category error.
- The `label.strip()` at src/fields.py:109 discards its result, so stored labels are not trimmed. The model does not trim them either.
- Raw answers are limited to strings, native integers, native fractions and None. `int()` of other objects is not modelled, and neither is a non-list argument to a multiple-choice field.
- Dictionaries passed as categories are modelled as the sequence of their `items()` in iteration order. Python 2's hash order is not modelled.
- `Coercion.StringValue`: `str()` of a native fraction is the parameter `floatStr`, because Python's float formatting is not modelled.
- Native fractions are exact reals. NaN and the infinities are not modelled.
- `Text.Lower` covers ASCII letters only.
- `Text.ParseInt` accepts whitespace around the number, an optional sign and decimal digits. Whitespace between the sign and the digits is not modelled, and neither are underscores or other bases.
- Bounds of 0: the model follows the code, which skips a bound of 0 (src/fields.py:58 and 61). Zero is not treated as a real bound.
- The other categories given to `get_categories_intersection` are modelled as (code, label) pairs with integer codes. The source takes any dictionary and only tests its codes for truth (src/fields.py:126-131), so a string code such as `'0'` is truthy there. Codes that are not integers are not modelled.
- Single- and multiple-choice fields coerce through `IntegerValue` with no bounds, where the intended and the as-written coercions agree (`Coercion.IntegerAsWrittenAgrees`).
- `Survey.SurveyStruct.Equals` compares the two dictionaries key by key, which is how Python compares dicts. Fields compare by identity because `Field` defines no `__eq__`.
- The field class carries its normalised name as a constant `key`, computed when the field is made. The source recomputes `name.lower().strip()` at each use from the same unchanging name.
- `src/exceptions.py` becomes the `ErrorKind` datatype. There is nothing in it to prove. `CategoriesDeletionError` has no kind, because only the categories deleter raises it and the deleter is not modelled.
- Strings are Python 2 byte strings (`str`). For a `unicode` answer, name or label, `strip()` removes a wider whitespace set, `lower()` folds non-ASCII letters, and `int()` accepts non-ASCII digits. None of that is modelled.
- The survey's invariant records only that every key is its own `strip()`. That a field's key is its lowered and stripped name belongs to the field's own invariant (`Fields.Field.Valid`), and `Fields.Field.NamedKeyStripped` links the two.
- No step dispatches coercion on a field's kind. Each coercion is a function of the attributes it uses.

## Findings

| source | as written | input that shows it | evidently intended | confidence | as-written member | corrected member |
|---|---|---|---|---|---|---|
| src/fields.py:229-232 | `remove` finds the field under `name.lower().strip()` but pops `name.lower()` | `remove(' q1')` on a survey with field `q1`: the lookup succeeds, then the pop raises KeyError | pop the same normalised key the lookup used | not executed | Survey.SurveyStruct.RemoveAsWritten, Survey.RemoveAsWrittenRaisesKeyError, Survey.PaddedNameExample | Survey.SurveyStruct.Remove |
| src/fields.py:61-63 | the over-maximum ValidationError message formats `self.min` with `%d` | `IntegerField('q1', 't', None, 10).get_field_value(11)`: `'%d' % None` raises TypeError, which escapes | format the maximum, so that the value is a ValidationError | not executed | Coercion.IntegerValueAsWritten, Coercion.IntegerAsWrittenAgrees, Coercion.MaxOnlyTypeErrorExample | Coercion.IntegerValue, Coercion.IntegerBounds |
