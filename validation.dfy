/** `validate_data`: the document must have at least three entries, a "data" key at
    index 2, and every record must contain every canonical field. Nothing is changed. */
module Validation {
  import opened Values
  import opened SpellData

  /** The inner loop over `keys`: the first key `item` does not contain decides the error. */
  function CheckKeys(item: Value, keys: seq<string>): (r: Outcome)
    decreases |keys|
  {
    if keys == [] then Pass
    else if Contains(item, keys[0]).None? then Fail(TypeError)
    else if Contains(item, keys[0]).value then CheckKeys(item, keys[1..])
    else Fail(InvalidData(MissingField(keys[0], item)))
  }

  /** The outer loop over the records. */
  function CheckItems(items: seq<Value>, keys: seq<string>): (r: Outcome)
    decreases |items|
  {
    if items == [] then Pass
    else match CheckKeys(items[0], keys)
      case Pass => CheckItems(items[1..], keys)
      case Fail(e) => Fail(e)
  }

  /** What `validate_data(data)` does: return normally, or raise. */
  function Validate(data: seq<Value>): (r: Outcome)
  {
    if |data| < 3 then Fail(InvalidData(TooFewEntries))
    else if Contains(data[2], "data").None? then Fail(TypeError)
    else if !Contains(data[2], "data").value then Fail(InvalidData(NoDataKey))
    else if !data[2].Object? then Fail(TypeError)
    else match Items(data[2].fields["data"])
      case Err(e) => Fail(e)
      case Ok(items) => CheckItems(items, DefaultKeys)
  }

  /** `validate_data(data)`, with its nested loops and early exits. */
  method ValidateData(doc: Document) returns (r: Outcome)
    ensures r == Validate(doc.entries)
  {
    var data := doc.entries;
    if |data| < 3 {
      return Fail(InvalidData(TooFewEntries));
    }
    var hasData := Contains(data[2], "data");
    if hasData.None? {
      return Fail(TypeError);
    }
    if !hasData.value {
      return Fail(InvalidData(NoDataKey));
    }
    if !data[2].Object? {
      return Fail(TypeError);
    }
    var listed := Items(data[2].fields["data"]);
    if listed.Err? {
      return Fail(listed.error);
    }
    r := CheckRecords(listed.value, DefaultKeys);
  }

  /** The nested loops of `validate_data`: every record against every key, returning at the
      first key a record does not contain. */
  method CheckRecords(items: seq<Value>, keys: seq<string>) returns (r: Outcome)
    ensures r == CheckItems(items, keys)
  {
    for i := 0 to |items|
      invariant CheckItems(items, keys) == CheckItems(items[i..], keys)
    {
      var item := items[i];
      for j := 0 to |keys|
        invariant CheckKeys(item, keys) == CheckKeys(item, keys[j..])
      {
        var found := Contains(item, keys[j]);
        if found.None? {
          return Fail(TypeError);
        }
        if !found.value {
          return Fail(InvalidData(MissingField(keys[j], item)));
        }
        assert keys[j..][1..] == keys[j + 1..];
      }
      assert items[i..][1..] == items[i + 1..];
    }
    return Pass;
  }

  /** `keys[j]` is the first of `keys` that `item` is not known to contain. */
  predicate FirstUncontained(item: Value, keys: seq<string>, j: nat) {
    j < |keys| && Contains(item, keys[j]) != Some(true) &&
    forall i :: 0 <= i < j ==> Contains(item, keys[i]) == Some(true)
  }

  /** The key check passes exactly when the item contains every key; otherwise it fails at
      the first key it does not contain, with TypeError where `in` itself raises. */
  lemma {:induction false} CheckKeysMeaning(item: Value, keys: seq<string>)
    ensures CheckKeys(item, keys) == Pass <==> forall j :: 0 <= j < |keys| ==> Contains(item, keys[j]) == Some(true)
    ensures CheckKeys(item, keys).Fail? ==>
      exists j: nat :: FirstUncontained(item, keys, j) &&
        CheckKeys(item, keys) ==
          (if Contains(item, keys[j]).None? then Fail(TypeError)
           else Fail(InvalidData(MissingField(keys[j], item))))
    decreases |keys|
  {
    if keys != [] && Contains(item, keys[0]) == Some(true) {
      CheckKeysMeaning(item, keys[1..]);
      assert forall j :: 1 <= j < |keys| ==> keys[j] == keys[1..][j - 1];
      if CheckKeys(item, keys).Fail? {
        var j: nat :| FirstUncontained(item, keys[1..], j) &&
          CheckKeys(item, keys[1..]) ==
            (if Contains(item, keys[1..][j]).None? then Fail(TypeError)
             else Fail(InvalidData(MissingField(keys[1..][j], item))));
        assert FirstUncontained(item, keys, j + 1);
      }
    } else if keys != [] {
      assert FirstUncontained(item, keys, 0);
    }
  }

  /** The record check passes exactly when every record passes the key check; otherwise it
      fails with the error of the first record that does not. */
  lemma {:induction false} CheckItemsMeaning(items: seq<Value>, keys: seq<string>)
    ensures CheckItems(items, keys) == Pass <==> forall i :: 0 <= i < |items| ==> CheckKeys(items[i], keys) == Pass
    ensures CheckItems(items, keys).Fail? ==>
      exists i :: 0 <= i < |items| && CheckKeys(items[i], keys) == CheckItems(items, keys) &&
        forall h :: 0 <= h < i ==> CheckKeys(items[h], keys) == Pass
    decreases |items|
  {
    if items != [] && CheckKeys(items[0], keys) == Pass {
      CheckItemsMeaning(items[1..], keys);
      assert forall i :: 1 <= i < |items| ==> items[i] == items[1..][i - 1];
      if CheckItems(items, keys).Fail? {
        var i :| 0 <= i < |items[1..]| && CheckKeys(items[1..][i], keys) == CheckItems(items[1..], keys) &&
          forall h :: 0 <= h < i ==> CheckKeys(items[1..][h], keys) == Pass;
        assert CheckKeys(items[i + 1], keys) == CheckItems(items, keys);
      }
    }
  }

  /** `validate_data` succeeds exactly when `data[2]['data']` is a list of records and
      every record contains every canonical field (extra fields are allowed). */
  lemma ValidateAccepts(data: seq<Value>)
    ensures Validate(data) == Pass <==>
      RecordList(data).Ok? &&
      forall i, j :: 0 <= i < |RecordList(data).value| && 0 <= j < |DefaultKeys| ==>
        Contains(RecordList(data).value[i], DefaultKeys[j]) == Some(true)
  {
    if |data| >= 3 && data[2].Object? && "data" in data[2].fields && data[2].fields["data"].Array? {
      var items := RecordList(data).value;
      CheckItemsMeaning(items, DefaultKeys);
      forall i | 0 <= i < |items| {
        CheckKeysMeaning(items[i], DefaultKeys);
      }
    }
  }

  /** For a list of JSON objects: `validate_data` succeeds exactly when every record has
      every key of `_default_data`. */
  lemma ValidateAcceptsObjects(data: seq<Value>)
    requires RecordList(data).Ok?
    requires forall i :: 0 <= i < |RecordList(data).value| ==> RecordList(data).value[i].Object?
    ensures Validate(data) == Pass <==>
      forall i :: 0 <= i < |RecordList(data).value| ==> DefaultData.Keys <= RecordList(data).value[i].fields.Keys
  {
    ValidateAccepts(data);
    DefaultDataAt(0);
    ObjectsContainAll(RecordList(data).value, DefaultKeys, DefaultData.Keys);
  }

  /** For mappings, containing every key of `keys` is having every key of the set `ks` of
      those keys. */
  lemma ObjectsContainAll(items: seq<Value>, keys: seq<string>, ks: set<string>)
    requires forall i :: 0 <= i < |items| ==> items[i].Object?
    requires forall k :: k in ks <==> k in keys
    ensures (forall i, j :: 0 <= i < |items| && 0 <= j < |keys| ==> Contains(items[i], keys[j]) == Some(true)) <==>
      (forall i :: 0 <= i < |items| ==> ks <= items[i].fields.Keys)
  {
    if forall i, j :: 0 <= i < |items| && 0 <= j < |keys| ==> Contains(items[i], keys[j]) == Some(true) {
      forall i | 0 <= i < |items| ensures ks <= items[i].fields.Keys {
        forall k | k in ks ensures k in items[i].fields {
          var j :| 0 <= j < |keys| && keys[j] == k;
          assert Contains(items[i], keys[j]) == Some(true);
        }
      }
    }
  }

  /** The structural errors `validate_data` raises: too few entries, and no "data" key in
      the mapping at index 2. */
  lemma ValidateRejectsShape(data: seq<Value>)
    ensures |data| < 3 ==> Validate(data) == Fail(InvalidData(TooFewEntries))
    ensures |data| >= 3 && data[2].Object? && "data" !in data[2].fields ==>
      Validate(data) == Fail(InvalidData(NoDataKey))
  {
  }

  /** `item` is record `i` of `items`, the first that lacks a key, and `keys[j]` is the
      first key it lacks. */
  predicate FirstMissing(items: seq<Value>, keys: seq<string>, item: Value, k: string, i: nat, j: nat) {
    && i < |items| && item == items[i]
    && FirstUncontained(item, keys, j) && keys[j] == k && Contains(item, k) == Some(false)
    && forall h :: 0 <= h < i ==> CheckKeys(items[h], keys) == Pass
  }

  /** A missing-field failure of the record check names the first record lacking a key and
      the first key it lacks. */
  lemma CheckItemsMissing(items: seq<Value>, keys: seq<string>, k: string, item: Value)
    requires CheckItems(items, keys) == Fail(InvalidData(MissingField(k, item)))
    ensures exists i, j :: FirstMissing(items, keys, item, k, i, j)
  {
    CheckItemsMeaning(items, keys);
    var i :| 0 <= i < |items| && CheckKeys(items[i], keys) == CheckItems(items, keys) &&
      forall h :: 0 <= h < i ==> CheckKeys(items[h], keys) == Pass;
    CheckKeysMeaning(items[i], keys);
    var j: nat :| FirstUncontained(items[i], keys, j) &&
      CheckKeys(items[i], keys) ==
        (if Contains(items[i], keys[j]).None? then Fail(TypeError)
         else Fail(InvalidData(MissingField(keys[j], items[i]))));
    assert FirstMissing(items, keys, item, k, i, j);
  }

  /** A missing-field error of `validate_data` names a record of the list and a canonical
      field it lacks: the first record that lacks a field, and the first field (in
      `_default_data` order) it lacks. */
  lemma ValidateMissingField(data: seq<Value>, k: string, item: Value)
    requires Validate(data) == Fail(InvalidData(MissingField(k, item)))
    ensures RecordList(data).Ok?
    ensures exists i, j :: FirstMissing(RecordList(data).value, DefaultKeys, item, k, i, j)
  {
    CheckItemsMissing(RecordList(data).value, DefaultKeys, k, item);
  }

  /** For a list of mappings of which some record lacks a canonical field, `validate_data`
      raises InvalidDataError naming the first such record and the first field (in
      `_default_data` order) that it lacks. */
  lemma ValidateReportsFirstMissing(data: seq<Value>)
    requires RecordList(data).Ok?
    requires forall i :: 0 <= i < |RecordList(data).value| ==> RecordList(data).value[i].Object?
    requires exists i :: 0 <= i < |RecordList(data).value| && !(DefaultData.Keys <= RecordList(data).value[i].fields.Keys)
    ensures exists item, k, i: nat, j: nat ::
      && FirstMissing(RecordList(data).value, DefaultKeys, item, k, i, j)
      && Validate(data) == Fail(InvalidData(MissingField(k, item)))
  {
    var items := RecordList(data).value;
    ValidateAcceptsObjects(data);
    assert Validate(data) == CheckItems(items, DefaultKeys);
    CheckItemsReportsFirstMissing(items, DefaultKeys);
  }

  /** A failing record check over mappings names the first record lacking a key, and the
      first key it lacks. */
  lemma CheckItemsReportsFirstMissing(items: seq<Value>, keys: seq<string>)
    requires forall i :: 0 <= i < |items| ==> items[i].Object?
    requires CheckItems(items, keys) != Pass
    ensures exists item, k, i: nat, j: nat ::
      && FirstMissing(items, keys, item, k, i, j)
      && CheckItems(items, keys) == Fail(InvalidData(MissingField(k, item)))
  {
    CheckItemsMeaning(items, keys);
    var i :| 0 <= i < |items| && CheckKeys(items[i], keys) == CheckItems(items, keys) &&
      forall h :: 0 <= h < i ==> CheckKeys(items[h], keys) == Pass;
    CheckKeysMeaning(items[i], keys);
    var j: nat :| FirstUncontained(items[i], keys, j) &&
      CheckKeys(items[i], keys) ==
        (if Contains(items[i], keys[j]).None? then Fail(TypeError)
         else Fail(InvalidData(MissingField(keys[j], items[i]))));
    assert FirstMissing(items, keys, items[i], keys[j], i, j);
  }
}
