/** `clean_classes`: the loop over the records that rewrites each record's "classes"
    string in place. */
module Cleaning {
  import opened Values
  import opened SpellData
  import opened ClassNames

  /** `item.get('classes')`: the value, or `None` when the key is absent. */
  function ClassesOf(fields: Record): (v: Value)
    ensures "classes" in fields ==> v == fields["classes"]
    ensures "classes" !in fields ==> v == Null
  {
    if "classes" in fields then fields["classes"] else Null
  }

  /** One pass of the record loop (lines 104-137). A record that is not a mapping has no
      `get` (AttributeError); an absent or falsy "classes" leaves the record as it is; a
      truthy value that is not a string has no `split` (AttributeError); a string is replaced
      by its cleaned form, or the cleaning raises. Only "classes" ever changes. */
  function CleanItem(item: Value, vc: seq<string>, correct: bool): (r: Result<Value>)
    ensures !item.Object? ==> r == Err(AttributeError)
    ensures item.Object? && !Truthy(ClassesOf(item.fields)) ==> r == Ok(item)
    ensures item.Object? && Truthy(ClassesOf(item.fields)) && !ClassesOf(item.fields).Str? ==> r == Err(AttributeError)
    ensures r.Ok? ==> item.Object? && r.value.Object? && r.value.fields.Keys == item.fields.Keys
    ensures r.Ok? ==> forall k :: k in item.fields && k != "classes" ==> r.value.fields[k] == item.fields[k]
  {
    if !item.Object? then Err(AttributeError)
    else
      var classes := ClassesOf(item.fields);
      if !Truthy(classes) then Ok(item)
      else if !classes.Str? then Err(AttributeError)
      else
        var t :- CleanedClasses(classes.s, vc, correct);
        Ok(Object(item.fields["classes" := Str(t)]))
  }

  /** A non-empty "classes" string is replaced by its cleaned form, or the record raises
      the cleaning's error. */
  lemma CleanItemString(item: Value, vc: seq<string>, correct: bool, s: string)
    requires item.Object? && ClassesOf(item.fields) == Str(s) && s != ""
    ensures CleanedClasses(s, vc, correct).Ok? ==>
      CleanItem(item, vc, correct) == Ok(Object(item.fields["classes" := Str(CleanedClasses(s, vc, correct).value)]))
    ensures CleanedClasses(s, vc, correct).Err? ==>
      CleanItem(item, vc, correct) == Err(CleanedClasses(s, vc, correct).error)
  {
  }

  /** The body of the record loop, step by step: `item.get('classes')`, the truthiness test,
      the string cleaning, and the write into the record's "classes" field. */
  method CleanRecord(item: Value, vc: seq<string>, correct: bool) returns (r: Result<Value>)
    ensures r == CleanItem(item, vc, correct)
  {
    if !item.Object? {
      return Err(AttributeError);
    }
    var classes := ClassesOf(item.fields);
    if !Truthy(classes) {
      return Ok(item);
    }
    if !classes.Str? {
      return Err(AttributeError);
    }
    var cleaned := CleanClassString(classes.s, vc, correct);
    CleanItemString(item, vc, correct, classes.s);
    if cleaned.Err? {
      return Err(cleaned.error);
    }
    return Ok(Object(item.fields["classes" := Str(cleaned.value)]));
  }

  /** The loop body as a function value, for the in-place rewrite of the record list. */
  function Cleaner(vc: seq<string>, correct: bool): (f: Value -> Result<Value>)
    ensures forall v :: f(v) == CleanItem(v, vc, correct)
  {
    v => CleanItem(v, vc, correct)
  }

  /** `clean_classes(data, valid_classes, correct_partial_names)`. Reaching `data[2]['data']`
      raises as the lookup does; a record that raises stops the loop with the records before
      it already cleaned and the rest untouched. */
  method CleanClasses(doc: Document, vc: seq<string>, correct: bool) returns (r: Outcome)
    modifies doc
    ensures RecordList(old(doc.entries)).Err? ==>
      r == Fail(RecordList(old(doc.entries)).error) && doc.entries == old(doc.entries)
    ensures RecordList(old(doc.entries)).Ok? ==>
      r == ApplyInPlace(RecordList(old(doc.entries)).value, Cleaner(vc, correct)).1 &&
      doc.entries == WithRecords(old(doc.entries), ApplyInPlace(RecordList(old(doc.entries)).value, Cleaner(vc, correct)).0)
    ensures RecordList(old(doc.entries)).Ok? ==> (doc.entries, r) == Cleaned(old(doc.entries), vc, correct)
  {
    r := CleanRecords(doc, vc, correct, Cleaner(vc, correct));
  }

  /** The record loop of `clean_classes`, for a rewrite `f` that is the cleaning of one
      record; `f` is named rather than unfolded, so that only the records the loop visits
      are cleaned in the proof. */
  method CleanRecords(doc: Document, vc: seq<string>, correct: bool, ghost f: Value -> Result<Value>)
    returns (r: Outcome)
    requires forall v {:trigger CleanItem(v, vc, correct)} :: f(v) == CleanItem(v, vc, correct)
    modifies doc
    ensures RecordList(old(doc.entries)).Err? ==>
      r == Fail(RecordList(old(doc.entries)).error) && doc.entries == old(doc.entries)
    ensures RecordList(old(doc.entries)).Ok? ==>
      r == ApplyInPlace(RecordList(old(doc.entries)).value, f).1 &&
      doc.entries == WithRecords(old(doc.entries), ApplyInPlace(RecordList(old(doc.entries)).value, f).0)
  {
    var listed := RecordList(doc.entries);
    if listed.Err? {
      return Fail(listed.error);
    }
    var records := listed.value;
    var items := records;
    var i := 0;
    while i < |items|
      invariant 0 <= i <= |items| == |records|
      invariant Rewritten(records, i, f) == (items, Pass)
      invariant forall j :: i <= j < |items| ==> items[j] == records[j]
      invariant doc.entries == old(doc.entries)
    {
      var cleaned := CleanRecord(items[i], vc, correct);
      assert f(records[i]) == cleaned;
      if cleaned.Err? {
        RewrittenHalts(records, i, f, items, cleaned.error);
        doc.entries := WithRecords(doc.entries, items);
        return Fail(cleaned.error);
      }
      RewrittenAdvance(records, i, f, items, cleaned.value);
      items := items[i := cleaned.value];
      i := i + 1;
    }
    doc.entries := WithRecords(doc.entries, items);
    return Pass;
  }

  /** The document `clean_classes` leaves behind, and its outcome. */
  function Cleaned(data: seq<Value>, vc: seq<string>, correct: bool): (seq<Value>, Outcome)
    requires RecordList(data).Ok?
  {
    var after := ApplyInPlace(RecordList(data).value, Cleaner(vc, correct));
    (WithRecords(data, after.0), after.1)
  }

  /** When cleaning completes, the record count and order are kept, and record `i` is record
      `i` with only its "classes" changed; a record whose "classes" is absent or falsy is
      unchanged. */
  lemma CleanKeepsRecords(data: seq<Value>, vc: seq<string>, correct: bool)
    requires RecordList(data).Ok? && Cleaned(data, vc, correct).1.Pass?
    ensures |RecordList(Cleaned(data, vc, correct).0).value| == |RecordList(data).value|
    ensures forall i :: 0 <= i < |RecordList(data).value| ==>
      Ok(RecordList(Cleaned(data, vc, correct).0).value[i]) == CleanItem(RecordList(data).value[i], vc, correct)
    ensures forall i :: 0 <= i < |RecordList(data).value| && !Truthy(ClassesOf(RecordList(data).value[i].fields)) ==>
      RecordList(Cleaned(data, vc, correct).0).value[i] == RecordList(data).value[i]
  {
    var records := RecordList(data).value;
    ApplyInPlaceCompletes(records, Cleaner(vc, correct));
    forall i | 0 <= i < |records| ensures CleanItem(records[i], vc, correct).Ok? {
      assert Cleaner(vc, correct)(records[i]).Ok?;
    }
  }

  /** When cleaning raises, some record `k` raised that error: the records before `k` are
      cleaned and the rest are as they were. */
  lemma CleanStopsAtRecord(data: seq<Value>, vc: seq<string>, correct: bool)
    requires RecordList(data).Ok? && Cleaned(data, vc, correct).1.Fail?
    ensures exists k :: StoppedAt(RecordList(data).value, RecordList(Cleaned(data, vc, correct).0).value,
      Cleaner(vc, correct), Cleaned(data, vc, correct).1.error, k)
  {
    ApplyInPlaceStops(RecordList(data).value, Cleaner(vc, correct));
  }

  /** A record whose "classes" string cleans to itself, or is empty, is left as it is. */
  lemma CleanItemFixed(fields: Record, vc: seq<string>, correct: bool, t: string)
    requires t != "" ==> CleanedClasses(t, vc, correct) == Ok(t)
    ensures CleanItem(Object(fields["classes" := Str(t)]), vc, correct) == Ok(Object(fields["classes" := Str(t)]))
  {
    var after := Object(fields["classes" := Str(t)]);
    assert ClassesOf(after.fields) == Str(t);
    if t != "" {
      CleanItemString(after, vc, correct, t);
      assert after.fields["classes" := Str(t)] == after.fields;
    }
  }

  /** Cleaning a record that cleaning produced changes nothing, when no valid name holds a
      comma or surrounding whitespace. */
  lemma CleanItemIdempotent(item: Value, vc: seq<string>, correct: bool)
    requires forall k :: 0 <= k < |vc| ==> Plain(vc[k])
    requires CleanItem(item, vc, correct).Ok?
    ensures CleanItem(CleanItem(item, vc, correct).value, vc, correct) == CleanItem(item, vc, correct)
  {
    var classes := ClassesOf(item.fields);
    if Truthy(classes) {
      var s := classes.s;
      CleanItemString(item, vc, correct, s);
      CleanedClassesIdempotent(s, vc, correct);
      CleanItemFixed(item.fields, vc, correct, CleanedClasses(s, vc, correct).value);
    }
  }

  /** `clean(clean(d)) == clean(d)`, under the same condition on the valid names. */
  lemma CleanClassesIdempotent(data: seq<Value>, vc: seq<string>, correct: bool)
    requires forall k :: 0 <= k < |vc| ==> Plain(vc[k])
    requires RecordList(data).Ok? && Cleaned(data, vc, correct).1.Pass?
    ensures RecordList(Cleaned(data, vc, correct).0).Ok?
    ensures Cleaned(Cleaned(data, vc, correct).0, vc, correct) == Cleaned(data, vc, correct)
  {
    var f := Cleaner(vc, correct);
    forall v | f(v).Ok? ensures f(f(v).value) == f(v) {
      CleanItemIdempotent(v, vc, correct);
    }
    ApplyInPlaceIdempotent(RecordList(data).value, f);
    WithSameRecords(Cleaned(data, vc, correct).0);
  }
}
