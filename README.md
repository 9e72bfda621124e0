# Spellbook data parser, modelled in Dafny

This project models the three operations of `5th_edition_spellbook_app_utils/data_parser.py`
that edit the custom spell data of the 5th Edition Spellbook app, and proves properties of
that model:

- `validate_data(data)` checks that the loaded document has at least three top-level
  entries and a `"data"` key at index 2. It also checks that every spell record in
  `data[2]['data']` has every field of the default record `_default_data`. Otherwise it
  raises `InvalidDataError`, or whatever Python exception the failing `in` or subscript
  raises.
- `patch_missing_fields(data)` replaces every record, in place, with
  `dict(_default_data, **item)`. Missing canonical fields get their defaults; present
  fields and extra fields are kept.
- `clean_classes(data, valid_classes, correct_partial_names)` rewrites each record's
  `"classes"` string in place. The steps are:
  1. Split the string at commas and strip each piece.
  2. Lower-case the pieces and de-duplicate them.
  3. Optionally repair entries that start with a valid name.
  4. Drop whatever is still not a valid name.
  5. Order what is left by `valid_classes` and restore the casing of `valid_classes`.
  6. Join the result with `", "`.

The model is organised as the program is:

- **`Text`**: the string methods the parser relies on (`lower`, `strip`, `split`,
  `join`, `startswith` and `list.index`). It proves that split and join are inverse.
- **`Values`**: JSON values, Python truthiness, Python's `in`, and the exceptions the code
  can raise, as a `Failure` datatype. A `Result` carries either a value or the exception.
- **`SpellData`**:
  - `_default_data`, as its ordered key list and value list.
  - The loaded document, as a class `Document` whose `entries` the operations change.
  - The lookup `data[2]['data']`.
  - The in-place loop `items[i] = f(items[i])` that patching and cleaning share. Its
    specification is `Rewritten`, the state after the first `k` passes. An exception stops
    the loop and the records already rewritten stay rewritten.
- **`Validation`**: `validate_data`, as a method with its nested loops, proved equal to a
  recursive specification. Lemmas say exactly when it passes and which record and field it
  names when one is missing.
- **`Patching`**: `patch_missing_fields`, as a method with its indexed loop, and the
  properties of the patched document: order kept, idempotent, and accepted by
  `validate_data`.
- **`ClassNames`**: the normalisation of one `"classes"` string, first as functions, then
  as a method `CleanClassString` that runs the correction loop step by step.
- **`Cleaning`**: the record loop of `clean_classes`, including records that are not
  mappings and `"classes"` values that are not strings, and its idempotence.

### How the correction loop reads

The code is modelled as written. Two points in it need care.

- **Match direction.** Line 122 tests `c.startswith(vc)`: an invalid entry is repaired
  when it starts with a valid name. So `"wizards"` becomes `"Wizard"`, but `"wiz"` begins
  `"wizard"` without starting with it, so it is not repaired and is dropped. The help text
  on line 160 ("contain a partial match") can be read either way.
- **No `break`.** After the first match, the loop on lines 121-125 goes on to the next
  valid name. If a second valid name also matches, `unique_classes.remove(c)` runs again
  on an entry already removed and raises `KeyError`. The model therefore does not follow
  "the first match wins". An entry with two or more matches makes the record, and
  `clean_classes`, raise `KeyErrorOnRemove`; an entry with exactly one match is replaced by
  it. Matches are counted over positions of the lower-cased valid list, so a valid name
  listed twice also counts twice.

Malformed documents raise Python's own exceptions, which the model keeps apart:

- `patch_missing_fields` and `clean_classes` do not check the document's shape. There
  `data[2]` raises `IndexError` and `['data']` raises `KeyError` or `TypeError`.
- Only `validate_data` raises `InvalidDataError`.

## Model

| member | source | states |
|---|---|---|
| `Values.Contains` | 5th_edition_spellbook_app_utils/data_parser.py:66-75 | `key in container` is defined for mappings, lists and strings and raises TypeError on anything else; on a mapping it is key membership |
| `Values.Truthy` | 5th_edition_spellbook_app_utils/data_parser.py:106 | definition of Python truthiness as `if classes:` tests it: None, False, 0, `""`, `[]` and `{}` are false, everything else is true |
| `SpellData.DefaultDataAt` | 5th_edition_spellbook_app_utils/data_parser.py:31-47 | `_default_data` has exactly the 17 listed fields, each bound to its listed default |
| `SpellData.DefaultLevel` | 5th_edition_spellbook_app_utils/data_parser.py:34 | the default record has a `level` of -1 |
| `SpellData.RecordList` | 5th_edition_spellbook_app_utils/data_parser.py:102 | `data[2]['data']` yields a record list exactly when the document has an index 2 holding a mapping whose `"data"` is a list; IndexError exactly when there are fewer than three entries; KeyError exactly when the mapping lacks `"data"` |
| `SpellData.RecordListValue` | 5th_edition_spellbook_app_utils/data_parser.py:102 | on success the lookup returns exactly the list stored under `"data"` in the mapping at index 2 |
| `SpellData.Items` | 5th_edition_spellbook_app_utils/data_parser.py:73 | definition of `for item in v` for the record list: a list yields exactly its items; a non-iterable raises TypeError; a mapping or string is not modelled (`Unsupported`) |
| `SpellData.WithRecords` | 5th_edition_spellbook_app_utils/data_parser.py:149-152 | writing the record list back in place changes no other top-level entry and no other key at index 2, and the document's record list is then the new one |
| `SpellData.Rewritten` | 5th_edition_spellbook_app_utils/data_parser.py:151-152 | definition of the state after the first `k` passes of an in-place loop over the records: each pass rewrites its record, the first exception stops the loop and is the outcome, and the record count never changes |
| `SpellData.ApplyInPlace` | 5th_edition_spellbook_app_utils/data_parser.py:104-137 | definition of the whole in-place loop over the records (as at 104-137 and 151-152): all passes, stopping at the first exception |
| `SpellData.ApplyInPlaceCompletes` | 5th_edition_spellbook_app_utils/data_parser.py:151-152 | the in-place loop completes exactly when the rewrite succeeds on every record, and then record `i` becomes the rewrite of record `i` |
| `SpellData.RewrittenCompletes` | 5th_edition_spellbook_app_utils/data_parser.py:151-152 | after `k` passes without an exception, the first `k` records are rewritten and the rest are untouched |
| `SpellData.RewrittenStays` | 5th_edition_spellbook_app_utils/data_parser.py:104-137 | once a pass raises, no later pass changes anything |
| `SpellData.ApplyInPlaceStops` | 5th_edition_spellbook_app_utils/data_parser.py:104-137 | a loop that raised stopped at a record on which the rewrite raised that error: records before it are rewritten, it and the rest are untouched |
| `SpellData.ApplyInPlaceIdempotent` | 5th_edition_spellbook_app_utils/data_parser.py:151-152 | running the loop twice equals running it once, when the rewrite leaves its own results unchanged |
| `Validation.CheckKeys` | 5th_edition_spellbook_app_utils/data_parser.py:74-76 | definition of the inner loop over the keys as a recursion: pass, or the exception of the first key the record does not contain; `CheckKeysMeaning` states what it decides |
| `Validation.CheckItems` | 5th_edition_spellbook_app_utils/data_parser.py:73-76 | definition of the loop over the records as a recursion: pass, or the exception of the first failing record; `CheckItemsMeaning` states what it decides |
| `Validation.Validate` | 5th_edition_spellbook_app_utils/data_parser.py:54-76 | definition of the outcome of `validate_data` (return, or the exception raised) as a function of the document; `ValidateData` is proved to compute it, and `ValidateAccepts`, `ValidateRejectsShape`, `ValidateMissingField` and `ValidateReportsFirstMissing` state what it decides |
| `Validation.ValidateData` | 5th_edition_spellbook_app_utils/data_parser.py:54-76 | the method with its nested loops and early exits returns or raises exactly as the recursive specification `Validate` does |
| `Validation.CheckRecords` | 5th_edition_spellbook_app_utils/data_parser.py:73-76 | the nested loops over records and keys agree with the recursive record check |
| `Validation.CheckKeysMeaning` | 5th_edition_spellbook_app_utils/data_parser.py:74-76 | a record passes the key loop exactly when it contains every key; otherwise the error comes from the first key it does not contain (TypeError where `in` itself raises) |
| `Validation.CheckItemsMeaning` | 5th_edition_spellbook_app_utils/data_parser.py:73-76 | the record loop passes exactly when every record passes; otherwise it reports the error of the first record that does not |
| `Validation.ValidateAccepts` | 5th_edition_spellbook_app_utils/data_parser.py:63-76 | `validate_data` succeeds exactly when `data[2]['data']` is a list and every record contains every canonical field |
| `Validation.ValidateAcceptsObjects` | 5th_edition_spellbook_app_utils/data_parser.py:71-76 | for a list of mappings, `validate_data` succeeds exactly when every record's keys include all keys of `_default_data` (extra keys allowed) |
| `Validation.ValidateRejectsShape` | 5th_edition_spellbook_app_utils/data_parser.py:63-67 | fewer than three entries, or a mapping at index 2 without `"data"`, raises InvalidDataError with that reason |
| `Validation.ValidateMissingField` | 5th_edition_spellbook_app_utils/data_parser.py:73-76 | a "missing field" error names the first record that lacks a canonical field, and the first such field in `_default_data` order |
| `Validation.CheckItemsReportsFirstMissing` | 5th_edition_spellbook_app_utils/data_parser.py:73-76 | over mapping records, a record loop that does not pass raises the missing-field error of the first record that lacks a key, naming the first key it lacks |
| `Validation.ValidateReportsFirstMissing` | 5th_edition_spellbook_app_utils/data_parser.py:73-76 | for a list of mappings of which some record lacks a canonical field, `validate_data` raises InvalidDataError naming the first such record and its first missing field in `_default_data` order |
| `Patching.PatchItem` | 5th_edition_spellbook_app_utils/data_parser.py:152 | `dict(_default_data, **item)` keeps every field the record has, adds exactly the missing canonical fields with their defaults, and raises TypeError on a non-mapping |
| `Patching.PatchMissingFields` | 5th_edition_spellbook_app_utils/data_parser.py:140-152 | the indexed loop leaves the document and outcome given by the in-place rewrite with `PatchItem`; a malformed document raises its lookup error and is unchanged |
| `Patching.Patched` | 5th_edition_spellbook_app_utils/data_parser.py:140-152 | definition of the document and outcome `patch_missing_fields` leaves for a well-formed document; `PatchMissingFields` ensures it leaves exactly this in `doc.entries` and returns exactly this outcome |
| `Patching.PatchKeepsOrder` | 5th_edition_spellbook_app_utils/data_parser.py:151-152 | a completed patch keeps the record count and order, and record `i` becomes record `i` patched |
| `Patching.PatchStopsAtRecord` | 5th_edition_spellbook_app_utils/data_parser.py:151-152 | a failed patch raised TypeError at a record that is not a mapping, with the records before it patched and the rest untouched |
| `Patching.PatchItemIdempotent` | 5th_edition_spellbook_app_utils/data_parser.py:152 | patching a patched record changes nothing |
| `Patching.PatchMissingFieldsIdempotent` | 5th_edition_spellbook_app_utils/data_parser.py:140-152 | patching a patched document changes nothing |
| `Patching.PatchThenValidate` | 5th_edition_spellbook_app_utils/data_parser.py:149-152 | after a successful patch, `validate_data` accepts the document |
| `Patching.PatchAddsLevel` | 5th_edition_spellbook_app_utils/data_parser.py:152 | a record without `level` gains `level = -1` and keeps all its fields |
| `Text.Lower` | 5th_edition_spellbook_app_utils/data_parser.py:100 | definition of ASCII `str.lower`: same length, each upper-case letter replaced by its lower-case form, every other character kept |
| `Text.LowerIdempotent` | 5th_edition_spellbook_app_utils/data_parser.py:100 | lower-casing twice is lower-casing once |
| `Text.Strip` | 5th_edition_spellbook_app_utils/data_parser.py:94 | definition of `str.strip` on ASCII whitespace: the result neither starts nor ends with whitespace and holds only characters of the input |
| `Text.StripClean` | 5th_edition_spellbook_app_utils/data_parser.py:94 | a string that neither starts nor ends with whitespace strips to itself, so stripping twice is stripping once |
| `Text.TrimStartSpaces` | 5th_edition_spellbook_app_utils/data_parser.py:94 | every character the leading trim removes is whitespace |
| `Text.TrimEndSpaces` | 5th_edition_spellbook_app_utils/data_parser.py:94 | every character the trailing trim removes is whitespace |
| `Text.TrimStartSplit` | 5th_edition_spellbook_app_utils/data_parser.py:94 | the string is the whitespace removed in front followed by what the leading trim keeps |
| `Text.TrimEndSplit` | 5th_edition_spellbook_app_utils/data_parser.py:94 | the string is what the trailing trim keeps followed by the whitespace removed behind it |
| `Text.StripSplit` | 5th_edition_spellbook_app_utils/data_parser.py:94 | the string is some whitespace, then its stripped form, then some whitespace |
| `Text.StripSurrounding` | 5th_edition_spellbook_app_utils/data_parser.py:94 | `strip` removes only surrounding whitespace: the input is its stripped form with whitespace before and after it |
| `Text.Split` | 5th_edition_spellbook_app_utils/data_parser.py:94 | definition of `str.split(sep)`: at least one piece, none of which contains the separator |
| `Text.Join` | 5th_edition_spellbook_app_utils/data_parser.py:97 | definition of `sep.join(parts)`; `JoinSplit` and `SplitJoin` make it the inverse of `Split` |
| `Text.StartsWith` | 5th_edition_spellbook_app_utils/data_parser.py:122 | definition of `str.startswith`: the prefix is no longer than the string and equals its opening characters |
| `Text.IndexOf` | 5th_edition_spellbook_app_utils/data_parser.py:133 | definition of `list.index`: a position holding the element, with no earlier occurrence |
| `Text.JoinSplit` | 5th_edition_spellbook_app_utils/data_parser.py:94 | joining the pieces of `s.split(sep)` with `sep` gives `s` back |
| `Text.SplitJoin` | 5th_edition_spellbook_app_utils/data_parser.py:94-97 | splitting a join of separator-free pieces gives the pieces back |
| `ClassNames.LowercaseList` | 5th_edition_spellbook_app_utils/data_parser.py:99-100 | definition of `_lowercase_list`: element-wise ASCII `lower`, same length |
| `ClassNames.LowercaseListLowered` | 5th_edition_spellbook_app_utils/data_parser.py:99-100 | every element `_lowercase_list` returns is already lower-case |
| `ClassNames.ToList` | 5th_edition_spellbook_app_utils/data_parser.py:93-94 | one stripped entry per comma-separated piece, so never an empty list |
| `ClassNames.ToListPlain` | 5th_edition_spellbook_app_utils/data_parser.py:93-94 | every entry `_to_list` returns is plain: no comma in it and no whitespace around it |
| `ClassNames.ToStr` | 5th_edition_spellbook_app_utils/data_parser.py:96-97 | definition of `_to_str`: the `", "`-join of the names; `ToListToStr` shows that `_to_list` undoes it on plain names |
| `ClassNames.ToListToStr` | 5th_edition_spellbook_app_utils/data_parser.py:93-97 | `_to_list(_to_str(names)) == names` for non-empty lists of names without commas or surrounding whitespace |
| `ClassNames.SetOf` | 5th_edition_spellbook_app_utils/data_parser.py:111 | definition of `set(xs)` (also at line 116): exactly the elements of `xs` |
| `ClassNames.Entries` | 5th_edition_spellbook_app_utils/data_parser.py:110-111 | definition of `unique_classes`: the set of the lower-cased, stripped, comma-separated entries |
| `ClassNames.EntriesLowered` | 5th_edition_spellbook_app_utils/data_parser.py:110-111 | `unique_classes` is never empty (an empty string gives one empty entry) and holds only lower-case strings |
| `ClassNames.Invalid` | 5th_edition_spellbook_app_utils/data_parser.py:116 | definition of `invalid_classes`: exactly the entries that are not a lower-cased valid name |
| `ClassNames.PrefixMatches` | 5th_edition_spellbook_app_utils/data_parser.py:121-122 | the number of valid names the entry starts with is zero exactly when no valid name is a prefix of it, and at most the number of valid names |
| `ClassNames.MatchedName` | 5th_edition_spellbook_app_utils/data_parser.py:121-125 | the replacement is a valid name the entry starts with |
| `ClassNames.Replacements` | 5th_edition_spellbook_app_utils/data_parser.py:120-125 | every added name is valid, and every repaired entry's match is added |
| `ClassNames.CorrectEntry` | 5th_edition_spellbook_app_utils/data_parser.py:121-125 | the inner loop for one invalid entry: raises KeyError on the second match; with one match replaces the entry by it; with none leaves the set as it is |
| `ClassNames.Corrected` | 5th_edition_spellbook_app_utils/data_parser.py:120-126 | definition, in closed form, of `unique_classes` after the correction loop: KeyError when some invalid entry starts with two or more valid names, otherwise every invalid entry with exactly one match swapped for that match; `CorrectPartialNames` proves the loop computes it |
| `ClassNames.CorrectedKeeps` | 5th_edition_spellbook_app_utils/data_parser.py:120-126 | the correction raises only the KeyError of `remove`; when it completes, every valid entry is kept and every added name is a valid one |
| `ClassNames.CorrectedCompletes` | 5th_edition_spellbook_app_utils/data_parser.py:120-125 | with no entry matching twice, the correction result is the set with each repaired entry swapped for its match |
| `ClassNames.CorrectedFails` | 5th_edition_spellbook_app_utils/data_parser.py:120-125 | one invalid entry with two matches makes the correction raise KeyError |
| `ClassNames.CorrectPartialNames` | 5th_edition_spellbook_app_utils/data_parser.py:120-125 | the correction loop over the invalid entries, in any order, gives the result of `Corrected` |
| `ClassNames.Drop` | 5th_edition_spellbook_app_utils/data_parser.py:128-130 | after removing the invalid entries, exactly the valid entries remain |
| `ClassNames.SortedByPosition` | 5th_edition_spellbook_app_utils/data_parser.py:133 | the sorted list holds each element of the set once, all valid, in strictly increasing order of position in the lower-cased valid list |
| `ClassNames.Recase` | 5th_edition_spellbook_app_utils/data_parser.py:135 | each name becomes the entry of `valid_classes` at its first case-insensitive position, which lower-cases back to it |
| `ClassNames.Survivors` | 5th_edition_spellbook_app_utils/data_parser.py:107-130 | every entry left after correction and dropping is a lower-cased valid name |
| `ClassNames.ClassNames` | 5th_edition_spellbook_app_utils/data_parser.py:107-135 | the written names, lower-cased, are exactly the surviving entries; it raises exactly when the correction does |
| `ClassNames.CleanedClasses` | 5th_edition_spellbook_app_utils/data_parser.py:107-137 | definition of the new `"classes"` string: the `", "`-join of the names `ClassNames` writes, raising exactly when they do; `CleanedClassesIdempotent` and `NoValidClasses` state its properties |
| `ClassNames.CleanClassString` | 5th_edition_spellbook_app_utils/data_parser.py:107-137 | the step-by-step cleaning, with the correction loop run as written, returns the `", "`-join of the names `ClassNames` writes, and raises exactly when they do |
| `ClassNames.ClassNamesCanonical` | 5th_edition_spellbook_app_utils/data_parser.py:133-135 | every written name is an exactly-cased entry of `valid_classes`; the names follow its order; no two are equal even ignoring case |
| `ClassNames.ClassNamesWithoutCorrection` | 5th_edition_spellbook_app_utils/data_parser.py:110-130 | without correction nothing raises, and the written names are, ignoring case, exactly the record's valid entries |
| `ClassNames.CorrectedValid` | 5th_edition_spellbook_app_utils/data_parser.py:120-126 | after the correction, the valid entries are those from before plus the replacements |
| `ClassNames.ClassNamesWithCorrection` | 5th_edition_spellbook_app_utils/data_parser.py:118-130 | with correction the record raises (KeyError) exactly when some invalid entry starts with two or more valid names; otherwise the written names are, ignoring case, the valid entries plus each repaired entry's match |
| `ClassNames.CorrectionOfEntry` | 5th_edition_spellbook_app_utils/data_parser.py:120-126 | an invalid entry never survives; with exactly one match, its match is written |
| `ClassNames.NoValidClasses` | 5th_edition_spellbook_app_utils/data_parser.py:107-137 | with an empty `valid_classes`, every string becomes empty, with or without correction |
| `ClassNames.SurvivorsOfValid` | 5th_edition_spellbook_app_utils/data_parser.py:116-130 | a string whose entries are all valid survives as its set of entries |
| `ClassNames.CleanedClassesIdempotent` | 5th_edition_spellbook_app_utils/data_parser.py:93-137 | when no valid name holds a comma or surrounding whitespace, cleaning a cleaned non-empty string gives it back |
| `Cleaning.ClassesOf` | 5th_edition_spellbook_app_utils/data_parser.py:105 | definition of `item.get('classes')`: the field's value, or None when it is absent |
| `Cleaning.CleanItem` | 5th_edition_spellbook_app_utils/data_parser.py:104-137 | a non-mapping raises AttributeError; an absent or falsy `"classes"` leaves the record unchanged; a truthy non-string raises AttributeError; on success the record keeps its keys and every field other than `"classes"` |
| `Cleaning.CleanItemString` | 5th_edition_spellbook_app_utils/data_parser.py:106-137 | a non-empty `"classes"` string is replaced by its cleaned form, or the record raises the cleaning's error |
| `Cleaning.CleanRecord` | 5th_edition_spellbook_app_utils/data_parser.py:104-137 | the loop body run step by step gives `CleanItem` |
| `Cleaning.CleanClasses` | 5th_edition_spellbook_app_utils/data_parser.py:79-137 | `clean_classes` leaves the document and outcome given by the in-place rewrite with `CleanItem`; a malformed document raises its lookup error and is unchanged |
| `Cleaning.Cleaned` | 5th_edition_spellbook_app_utils/data_parser.py:79-137 | definition of the document and outcome `clean_classes` leaves for a well-formed document; `CleanClasses` ensures it leaves exactly this in `doc.entries` and returns exactly this outcome |
| `Cleaning.CleanRecords` | 5th_edition_spellbook_app_utils/data_parser.py:102-137 | the record loop leaves the records before a failing record cleaned and the rest untouched, as the in-place rewrite specifies |
| `Cleaning.CleanKeepsRecords` | 5th_edition_spellbook_app_utils/data_parser.py:104-137 | completed cleaning keeps the record count and order; record `i` becomes record `i` cleaned; a record with absent or falsy `"classes"` is unchanged |
| `Cleaning.CleanStopsAtRecord` | 5th_edition_spellbook_app_utils/data_parser.py:104-137 | failed cleaning stopped at a record that raised that error, with the records before it cleaned and the rest untouched |
| `Cleaning.CleanItemFixed` | 5th_edition_spellbook_app_utils/data_parser.py:106-137 | a record whose `"classes"` is empty, or cleans to itself, is left as it is |
| `Cleaning.CleanItemIdempotent` | 5th_edition_spellbook_app_utils/data_parser.py:104-137 | cleaning a cleaned record changes nothing, when no valid name holds a comma or surrounding whitespace |
| `Cleaning.CleanClassesIdempotent` | 5th_edition_spellbook_app_utils/data_parser.py:79-137 | `clean_classes` applied twice equals applying it once, under the same condition on the valid names |

## Left out

- The command-line entry point (lines 155 onward) is not modelled: argument parsing, reading
  and writing the JSON files, and pretty printing. The operations take an already loaded
  document.
- The diagnostic `print` calls on lines 113, 123 and 129 are left out; they change no data.
- JSON floating-point numbers are not part of `Value`.
- `str.lower` and `str.strip` are modelled on ASCII only. Non-ASCII case mappings and
  Unicode whitespace are not modelled.
- The top-level document is modelled as a list. A JSON document whose top level is an
  object is not modelled.
- Iterating a mapping's keys, or a string's characters, under `data[2]['data']` is not
  modelled. The model reports `Unsupported` for it.
- Records are modelled as values. The in-place writes become a new list written back into
  the document, including when a record raises part-way. Aliasing between record objects
  is not captured; a document parsed by `json.loads` has none.
- `CorrectPartialNames` takes the invalid entries in an arbitrary order, where Python takes
  them in set iteration order. The result does not depend on the order, and the proof
  covers every order.
- `KeyErrorOnRemove` does not carry the offending entry, because which entry raises first
  depends on set iteration order.
