/** Values of the application as JSON and back (`rust/src/json.rs`). */
module JsonValues {
  import opened Primitives
  import opened Integers
  import opened Schema
  import Json

  /** The three-stream coding, and which doubles are JSON numbers. */
  datatype JsonSide = JsonSide(coding: Json.Coding, finite: Float64 -> bool)

  /** `sonic_to_json`: a key that is given twice keeps its first place and its last value. */
  function ToJson(js: JsonSide, value: SonicValue): Result<Json.Value>
    decreases value
  {
    match value
    case Null | Undefined => Ok(Json.Null)
    case Bool(b) => Ok(Json.Bool(b))
    case I64(i) => Ok(Json.Int(i))
    case U64(u) => Ok(Json.Int(u))
    case F32(f) => (match js.coding.widen(f) case Some(d) => Ok(Json.Float(d)) case None => Err(InvalidData))
    case F64(d) => if js.finite(d) then Ok(Json.Float(d)) else Err(InvalidData)
    case String(s) => Ok(Json.Text(s))
    case Array(items) =>
      var list :- ItemsToJson(js, items);
      Ok(Json.List(list))
    case Object(entries) =>
      var fields :- EntriesToJson(js, entries, []);
      Ok(Json.Map(fields))
    case Bytes(_) => Err(InvalidData)
  }

  function ItemsToJson(js: JsonSide, items: seq<SonicValue>): (r: Result<seq<Json.Value>>)
    ensures r.Ok? ==> |r.value| == |items|
    decreases items
  {
    if items == [] then Ok([])
    else
      var first :- ToJson(js, items[0]);
      Prepend([first], ItemsToJson(js, items[1..]))
  }

  function EntriesToJson(js: JsonSide, entries: seq<Property>, done: seq<Json.Entry>): Result<seq<Json.Entry>>
    decreases entries
  {
    if entries == [] then Ok(done)
    else
      var first :- ToJson(js, entries[0].value);
      EntriesToJson(js, entries[1..], Json.Insert(done, entries[0].key, first))
  }

  /** `json_to_sonic`; decoded integers fit in 32 bits. */
  function FromJson(value: Json.Value): SonicValue
    decreases value
  {
    match value
    case Null => Null
    case Bool(b) => Bool(b)
    case Int(n) => if InI64(n) then I64(n) else if 0 <= n < U64_LIMIT then U64(n) else Null
    case Float(d) => F64(d)
    case Text(s) => String(s)
    case List(items) => Array(ItemsFromJson(items))
    case Map(entries) => Object(EntriesFromJson(entries))
  }

  function ItemsFromJson(items: seq<Json.Value>): seq<SonicValue>
    decreases items
  {
    if items == [] then [] else [FromJson(items[0])] + ItemsFromJson(items[1..])
  }

  function EntriesFromJson(entries: seq<Json.Entry>): seq<Property>
    decreases entries
  {
    if entries == [] then [] else [Property(entries[0].key, FromJson(entries[0].value))] + EntriesFromJson(entries[1..])
  }

  // ---- objects come out with distinct keys

  ghost predicate Distinct(entries: seq<Json.Entry>) {
    && (forall i, j :: 0 <= i < j < |entries| ==> entries[i].key != entries[j].key)
    && (forall i :: 0 <= i < |entries| ==> Json.UniqueKeys(entries[i].value))
  }

  /** A known key keeps its place and gets the new value; a new one comes last. */
  lemma {:induction false} InsertPlaces(entries: seq<Json.Entry>, key: string, value: Json.Value) returns (place: nat)
    ensures place <= |entries| && forall i :: 0 <= i < place ==> entries[i].key != key
    ensures if place < |entries| then entries[place].key == key && Json.Insert(entries, key, value) == entries[place := Json.Entry(key, value)]
            else Json.Insert(entries, key, value) == entries + [Json.Entry(key, value)]
  {
    if entries == [] || entries[0].key == key {
      place := 0;
    } else {
      var behind := InsertPlaces(entries[1..], key, value);
      place := behind + 1;
      assert entries == [entries[0]] + entries[1..];
      assert forall i :: 1 <= i < place ==> entries[i] == entries[1..][i - 1];
    }
  }

  lemma InsertKeepsDistinct(entries: seq<Json.Entry>, key: string, value: Json.Value)
    requires Distinct(entries) && Json.UniqueKeys(value)
    ensures Distinct(Json.Insert(entries, key, value))
  {
    hide Json.UniqueKeys, Json.Insert;
    var place := InsertPlaces(entries, key, value);
  }

  /** Whatever value is converted, no object of the result has a key twice. */
  lemma {:induction false} ToJsonIsUnique(js: JsonSide, value: SonicValue)
    requires ToJson(js, value).Ok?
    ensures Json.UniqueKeys(ToJson(js, value).value)
    decreases value, 0
  {
    match value
    case Array(items) => ItemsAreUnique(js, items);
    case Object(entries) => EntriesAreUnique(js, entries, []);
    case _ =>
  }

  lemma {:induction false} ItemsAreUnique(js: JsonSide, items: seq<SonicValue>)
    requires ItemsToJson(js, items).Ok?
    ensures forall i :: 0 <= i < |items| ==> Json.UniqueKeys(ItemsToJson(js, items).value[i])
    decreases items, 1
  {
    hide Json.UniqueKeys, ToJson;
    if items != [] {
      ToJsonIsUnique(js, items[0]);
      ItemsAreUnique(js, items[1..]);
    }
  }

  lemma {:induction false} EntriesAreUnique(js: JsonSide, entries: seq<Property>, done: seq<Json.Entry>)
    requires EntriesToJson(js, entries, done).Ok? && Distinct(done)
    ensures Distinct(EntriesToJson(js, entries, done).value)
    decreases entries, 1
  {
    hide Json.UniqueKeys, ToJson, Distinct;
    if entries != [] {
      ToJsonIsUnique(js, entries[0].value);
      var first := ToJson(js, entries[0].value).value;
      InsertKeepsDistinct(done, entries[0].key, first);
      EntriesAreUnique(js, entries[1..], Json.Insert(done, entries[0].key, first));
    }
  }
}
