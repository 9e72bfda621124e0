/** `patch_missing_fields`: every record is replaced, in place, by the default record
    overlaid with the record's own fields. */
module Patching {
  import opened Values
  import opened SpellData
  import Validation

  /** `dict(_default_data, **item)`: fields the record has keep their values, canonical
      fields it lacks get their defaults, extra fields stay; a record that is not a
      mapping makes `**` raise TypeError. */
  function PatchItem(item: Value): (r: Result<Value>)
    ensures r.Ok? <==> item.Object?
    ensures item.Object? ==> r.value.Object?
    ensures item.Object? ==> forall k :: k in r.value.fields <==> k in item.fields || k in DefaultData
    ensures item.Object? ==> forall k :: k in item.fields ==> r.value.fields[k] == item.fields[k]
    ensures item.Object? ==> forall k :: k in DefaultData && k !in item.fields ==> r.value.fields[k] == DefaultData[k]
  {
    if item.Object? then Ok(Object(DefaultData + item.fields)) else Err(TypeError)
  }

  /** `patch_missing_fields(data)`: the indexed loop that overwrites `internal_data[i]`.
      Reaching `data[2]['data']` raises as the lookup does; a non-mapping record raises
      TypeError after the records before it have been replaced. */
  method PatchMissingFields(doc: Document) returns (r: Outcome)
    modifies doc
    ensures RecordList(old(doc.entries)).Err? ==>
      r == Fail(RecordList(old(doc.entries)).error) && doc.entries == old(doc.entries)
    ensures RecordList(old(doc.entries)).Ok? ==>
      r == ApplyInPlace(RecordList(old(doc.entries)).value, PatchItem).1 &&
      doc.entries == WithRecords(old(doc.entries), ApplyInPlace(RecordList(old(doc.entries)).value, PatchItem).0)
    ensures RecordList(old(doc.entries)).Ok? ==> (doc.entries, r) == Patched(old(doc.entries))
  {
    var listed := RecordList(doc.entries);
    if listed.Err? {
      return Fail(listed.error);
    }
    var records := listed.value;
    var items := records;
    var i := 0;
    while i < |items|
      invariant 0 <= i <= |items| == |records|
      invariant Rewritten(records, i, PatchItem) == (items, Pass)
      invariant forall j :: i <= j < |items| ==> items[j] == records[j]
      invariant doc.entries == old(doc.entries)
    {
      if !items[i].Object? {
        RewrittenHalts(records, i, PatchItem, items, TypeError);
        doc.entries := WithRecords(doc.entries, items);
        return Fail(TypeError);
      }
      RewrittenAdvance(records, i, PatchItem, items, Object(DefaultData + items[i].fields));
      items := items[i := Object(DefaultData + items[i].fields)];
      i := i + 1;
    }
    doc.entries := WithRecords(doc.entries, items);
    return Pass;
  }

  /** The document `patch_missing_fields` leaves behind, and its outcome. */
  function Patched(data: seq<Value>): (seq<Value>, Outcome)
    requires RecordList(data).Ok?
  {
    var after := ApplyInPlace(RecordList(data).value, PatchItem);
    (WithRecords(data, after.0), after.1)
  }

  /** Patching keeps the record count and order: record `i` afterwards is record `i`
      patched, and nothing outside the record list changes. */
  lemma PatchKeepsOrder(data: seq<Value>)
    requires RecordList(data).Ok? && Patched(data).1.Pass?
    ensures |RecordList(Patched(data).0).value| == |RecordList(data).value|
    ensures forall i :: 0 <= i < |RecordList(data).value| ==>
      Ok(RecordList(Patched(data).0).value[i]) == PatchItem(RecordList(data).value[i])
  {
    ApplyInPlaceCompletes(RecordList(data).value, PatchItem);
  }

  /** When patching raises, some record `k` is not a mapping: the records before `k` are
      patched and the rest are as they were. */
  lemma PatchStopsAtRecord(data: seq<Value>)
    requires RecordList(data).Ok? && Patched(data).1.Fail?
    ensures Patched(data).1.error == TypeError
    ensures exists k: nat ::
      && StoppedAt(RecordList(data).value, RecordList(Patched(data).0).value, PatchItem, TypeError, k)
      && !RecordList(data).value[k].Object?
  {
    ApplyInPlaceStops(RecordList(data).value, PatchItem);
  }

  /** Patching a patched record changes nothing. */
  lemma PatchItemIdempotent(item: Value)
    requires item.Object?
    ensures PatchItem(PatchItem(item).value) == PatchItem(item)
  {
    var m := item.fields;
    assert DefaultData + (DefaultData + m) == DefaultData + m;
  }

  /** `patch(patch(d)) == patch(d)`. */
  lemma PatchMissingFieldsIdempotent(data: seq<Value>)
    requires RecordList(data).Ok? && Patched(data).1.Pass?
    ensures RecordList(Patched(data).0).Ok?
    ensures Patched(Patched(data).0) == Patched(data)
  {
    var records := RecordList(data).value;
    var after := ApplyInPlace(records, PatchItem);
    forall v | PatchItem(v).Ok? ensures PatchItem(PatchItem(v).value) == PatchItem(v) {
      PatchItemIdempotent(v);
    }
    ApplyInPlaceIdempotent(records, PatchItem);
    WithSameRecords(Patched(data).0);
  }

  /** After a successful patch, `validate_data` accepts the document. */
  lemma PatchThenValidate(data: seq<Value>)
    requires RecordList(data).Ok? && Patched(data).1.Pass?
    ensures Validation.Validate(Patched(data).0) == Pass
  {
    var records := RecordList(data).value;
    var patched := Patched(data).0;
    ApplyInPlaceCompletes(records, PatchItem);
    assert RecordList(patched).value == ApplyInPlace(records, PatchItem).0;
    Validation.ValidateAcceptsObjects(patched);
  }

  /** A record without a "level" field gains `level = -1`; every field it had is kept. */
  lemma PatchAddsLevel(fields: Record)
    requires "level" !in fields
    ensures PatchItem(Object(fields)).value.fields["level"] == Int(-1)
    ensures forall k :: k in fields ==> PatchItem(Object(fields)).value.fields[k] == fields[k]
  {
    DefaultLevel();
  }
}
