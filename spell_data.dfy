/** The shape of the spell-data document shared by the three operations: the default
    record `_default_data`, the document itself, the record list at `data[2]['data']`,
    and the in-place rewriting of that list that patching and class cleaning share. */
module SpellData {
  import opened Values

  /** The keys of `_default_data`, in the order of its dictionary literal (the order
      `validate_data` checks them in). */
  const DefaultKeys: seq<string> := [
    "id", "name", "school", "level", "casting_time", "range", "components", "duration",
    "description", "description_high", "book", "note", "classes", "concentration",
    "ritual", "sound", "is_edit"
  ]

  /** The default value of each key of `DefaultKeys`, in the same order. */
  const DefaultValues: seq<Value> := [
    Int(-1), Str("aoeu"), Str("Abjuration Cantrip"), Int(-1), Str("1 Action"), Str("None"),
    Str(""), Str("1 Round"), Str("<p>aeu<br></p>"), Str(""), Str(""), Str(""), Str(""),
    Str("false"), Str("false"), Str(""), Bool(false)
  ]

  predicate Distinct(keys: seq<string>) {
    forall a, b :: 0 <= a < b < |keys| ==> keys[a] != keys[b]
  }

  /** The dictionary a literal binding `keys[i]` to `values[i]` builds: a later binding wins. */
  function ToMap(keys: seq<string>, values: seq<Value>): (m: Record)
    requires |keys| == |values|
    ensures forall k :: k in m <==> k in keys
  {
    if keys == [] then map[]
    else ToMap(keys[..|keys| - 1], values[..|keys| - 1])[keys[|keys| - 1] := values[|keys| - 1]]
  }

  /** Where no key repeats, each key of the literal is bound to its own value. */
  lemma {:induction false} ToMapAt(keys: seq<string>, values: seq<Value>, i: nat)
    requires |keys| == |values| && i < |keys| && Distinct(keys)
    ensures ToMap(keys, values)[keys[i]] == values[i]
  {
    if i < |keys| - 1 {
      ToMapAt(keys[..|keys| - 1], values[..|keys| - 1], i);
    }
  }

  /** `_default_data`. */
  const DefaultData: Record := ToMap(DefaultKeys, DefaultValues)

  /** The default table binds each of the 17 canonical fields, and nothing else, to its
      listed default. */
  lemma DefaultDataAt(i: nat)
    requires i < |DefaultKeys|
    ensures |DefaultKeys| == |DefaultValues| == 17
    ensures forall k :: k in DefaultData <==> k in DefaultKeys
    ensures DefaultData[DefaultKeys[i]] == DefaultValues[i]
  {
    DefaultKeysDistinct();
    ToMapAt(DefaultKeys, DefaultValues, i);
  }

  /** A record without a level is given level -1. */
  lemma DefaultLevel()
    ensures "level" in DefaultData && DefaultData["level"] == Int(-1)
  {
    assert DefaultKeys[3] == "level" && DefaultValues[3] == Int(-1);
    DefaultDataAt(3);
  }

  /** No field name repeats in `_default_data`'s literal. */
  lemma DefaultKeysDistinct()
    ensures Distinct(DefaultKeys)
  {
  }

  /** The loaded document: the top-level list `data` that the operations receive and
      change in place. */
  class Document {
    var entries: seq<Value>

    constructor (entries: seq<Value>)
      ensures this.entries == entries
    {
      this.entries := entries;
    }
  }

  /** `for item in v`: the items of a list; a number, boolean or `None` raises TypeError.
      Iterating an object's keys or a string's characters is not modelled. */
  function Items(v: Value): (r: Result<seq<Value>>)
    ensures r.Ok? <==> v.Array?
    ensures v.Array? ==> r.value == v.items
  {
    match v
    case Array(xs) => Ok(xs)
    case Str(_) => Err(Unsupported)
    case Object(_) => Err(Unsupported)
    case _ => Err(TypeError)
  }

  /** `data[2]['data']`, iterated, as the patching and cleaning operations reach it. */
  function RecordList(entries: seq<Value>): (r: Result<seq<Value>>)
    ensures r.Ok? <==>
      |entries| >= 3 && entries[2].Object? && "data" in entries[2].fields && entries[2].fields["data"].Array?
    ensures r == Err(IndexError) <==> |entries| < 3
    ensures r == Err(KeyError("data")) <==> |entries| >= 3 && entries[2].Object? && "data" !in entries[2].fields
  {
    if |entries| < 3 then Err(IndexError)
    else match entries[2]
      case Object(m) => if "data" in m then Items(m["data"]) else Err(KeyError("data"))
      case _ => Err(TypeError)
  }

  /** What the lookup returns: the list stored under "data" in the mapping at index 2. */
  lemma RecordListValue(entries: seq<Value>)
    requires RecordList(entries).Ok?
    ensures |entries| >= 3 && entries[2].Object? && "data" in entries[2].fields
    ensures RecordList(entries).value == entries[2].fields["data"].items
  {
  }

  /** The document with the list at `data[2]['data']` holding `items`: every other
      top-level entry and every sibling key at index 2 is as it was. */
  function WithRecords(entries: seq<Value>, items: seq<Value>): (r: seq<Value>)
    requires RecordList(entries).Ok?
    ensures |r| == |entries|
    ensures forall j :: 0 <= j < |entries| && j != 2 ==> r[j] == entries[j]
    ensures r[2].Object? && r[2].fields.Keys == entries[2].fields.Keys
    ensures forall k :: k in entries[2].fields && k != "data" ==> r[2].fields[k] == entries[2].fields[k]
    ensures RecordList(r) == Ok(items)
  {
    entries[2 := Object(entries[2].fields["data" := Array(items)])]
  }

  /** Writing back the list that is already there changes nothing. */
  lemma WithSameRecords(entries: seq<Value>)
    requires RecordList(entries).Ok?
    ensures WithRecords(entries, RecordList(entries).value) == entries
  {
    var m := entries[2].fields;
    assert m["data" := m["data"]] == m;
  }

  /** The first `k` passes of `for i in range(len(items)): items[i] = f(items[i])`,
      stopping at the first exception: the list afterwards and whether the passes completed. */
  function Rewritten(items: seq<Value>, k: nat, f: Value -> Result<Value>): (r: (seq<Value>, Outcome))
    requires k <= |items|
    ensures |r.0| == |items|
    decreases k
  {
    if k == 0 then (items, Pass)
    else
      var prev := Rewritten(items, k - 1, f);
      if prev.1.Fail? then prev
      else match f(items[k - 1])
        case Err(e) => (prev.0, Fail(e))
        case Ok(v) => (prev.0[k - 1 := v], Pass)
  }

  /** The whole loop: every item rewritten in place, up to the first exception. */
  function ApplyInPlace(items: seq<Value>, f: Value -> Result<Value>): (seq<Value>, Outcome) {
    Rewritten(items, |items|, f)
  }

  /** Once a pass raises, later passes do not run: the state stays as it was. */
  lemma {:induction false} RewrittenStays(items: seq<Value>, k: nat, n: nat, f: Value -> Result<Value>)
    requires k <= n <= |items| && Rewritten(items, k, f).1.Fail?
    ensures Rewritten(items, n, f).0 == Rewritten(items, k, f).0 && Rewritten(items, n, f).1 == Rewritten(items, k, f).1
    decreases n
  {
    if k < n {
      RewrittenStays(items, k, n - 1, f);
    }
  }

  /** One more pass of the loop, on an item where `f` succeeds. */
  lemma RewrittenAdvance(items: seq<Value>, k: nat, f: Value -> Result<Value>, current: seq<Value>, v: Value)
    requires k < |items| && Rewritten(items, k, f) == (current, Pass) && f(items[k]) == Ok(v)
    ensures Rewritten(items, k + 1, f) == (current[k := v], Pass)
  {
  }

  /** One more pass of the loop, on an item where `f` raises. */
  lemma RewrittenRaises(items: seq<Value>, k: nat, f: Value -> Result<Value>, current: seq<Value>, e: Failure)
    requires k < |items| && Rewritten(items, k, f) == (current, Pass) && f(items[k]) == Err(e)
    ensures Rewritten(items, k + 1, f) == (current, Fail(e))
  {
  }

  /** A pass that raises ends the loop: the whole rewrite leaves the list as it was then. */
  lemma RewrittenHalts(items: seq<Value>, k: nat, f: Value -> Result<Value>, current: seq<Value>, e: Failure)
    requires k < |items| && Rewritten(items, k, f) == (current, Pass) && f(items[k]) == Err(e)
    ensures ApplyInPlace(items, f) == (current, Fail(e))
  {
    RewrittenRaises(items, k, f, current, e);
    RewrittenStays(items, k + 1, |items|, f);
  }

  /** The first `k` passes complete exactly when `f` succeeds on the first `k` items; then
      those items are rewritten and the rest are untouched. */
  lemma {:induction false} RewrittenCompletes(items: seq<Value>, k: nat, f: Value -> Result<Value>)
    requires k <= |items|
    ensures Rewritten(items, k, f).1.Pass? <==> forall i :: 0 <= i < k ==> f(items[i]).Ok?
    ensures Rewritten(items, k, f).1.Pass? ==>
      (forall i :: 0 <= i < k ==> Rewritten(items, k, f).0[i] == f(items[i]).value) &&
      (forall i :: k <= i < |items| ==> Rewritten(items, k, f).0[i] == items[i])
    decreases k
  {
    if k > 0 {
      RewrittenCompletes(items, k - 1, f);
    }
  }

  /** `ApplyInPlace` completes exactly when `f` succeeds on every item, and then item `i`
      becomes the result of `f` on it. */
  lemma ApplyInPlaceCompletes(items: seq<Value>, f: Value -> Result<Value>)
    ensures ApplyInPlace(items, f).1.Pass? <==> forall i :: 0 <= i < |items| ==> f(items[i]).Ok?
    ensures ApplyInPlace(items, f).1.Pass? ==>
      forall i :: 0 <= i < |items| ==> ApplyInPlace(items, f).0[i] == f(items[i]).value
  {
    RewrittenCompletes(items, |items|, f);
  }

  /** `after` is `items` rewritten by `f` up to index `k`, where `f` raised `e`. */
  predicate StoppedAt(items: seq<Value>, after: seq<Value>, f: Value -> Result<Value>, e: Failure, k: nat) {
    && k < |items| == |after|
    && f(items[k]) == Err(e)
    && after[k..] == items[k..]
    && forall i :: 0 <= i < k ==> f(items[i]).Ok? && after[i] == f(items[i]).value
  }

  /** When the first `k` passes fail, they stopped at an item `j` on which `f` raised the
      reported error: the items before `j` are rewritten and the rest are untouched. */
  lemma {:induction false} RewrittenStops(items: seq<Value>, k: nat, f: Value -> Result<Value>)
    requires k <= |items| && Rewritten(items, k, f).1.Fail?
    ensures exists j :: StoppedAt(items, Rewritten(items, k, f).0, f, Rewritten(items, k, f).1.error, j)
    decreases k
  {
    var prev := Rewritten(items, k - 1, f);
    if prev.1.Fail? {
      RewrittenStops(items, k - 1, f);
    } else {
      RewrittenCompletes(items, k - 1, f);
      assert prev.0[k - 1..] == items[k - 1..];
      assert StoppedAt(items, Rewritten(items, k, f).0, f, Rewritten(items, k, f).1.error, k - 1);
    }
  }

  /** When `ApplyInPlace` fails, it stopped at an item `k` on which `f` raised the reported
      error: the items before `k` are rewritten and the rest are untouched. */
  lemma ApplyInPlaceStops(items: seq<Value>, f: Value -> Result<Value>)
    requires ApplyInPlace(items, f).1.Fail?
    ensures exists k :: StoppedAt(items, ApplyInPlace(items, f).0, f, ApplyInPlace(items, f).1.error, k)
  {
    RewrittenStops(items, |items|, f);
  }

  /** Rewriting twice is rewriting once, when `f` leaves its own results as they are. */
  lemma ApplyInPlaceIdempotent(items: seq<Value>, f: Value -> Result<Value>)
    requires forall v :: f(v).Ok? ==> f(f(v).value) == f(v)
    requires ApplyInPlace(items, f).1.Pass?
    ensures ApplyInPlace(ApplyInPlace(items, f).0, f) == ApplyInPlace(items, f)
  {
    var after := ApplyInPlace(items, f).0;
    ApplyInPlaceCompletes(items, f);
    forall i | 0 <= i < |after| ensures f(after[i]) == Ok(after[i]) {
      assert after[i] == f(items[i]).value;
    }
    ApplyInPlaceCompletes(after, f);
    assert ApplyInPlace(after, f).0 == after;
  }
}
