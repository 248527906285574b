/** What a JSON packet does to a value, said of values alone. */
module JsonMeaning {
  import opened Primitives
  import opened Schema
  import opened JsonValues
  import Json
  import Varint

  // ---- the statement

  /** Bytes or a float that is no JSON number, anywhere in the value. */
  ghost predicate NoJson(js: JsonSide, v: SonicValue)
    decreases v
  {
    match v
    case Bytes(_) => true
    case F32(f) => js.coding.widen(f).None?
    case F64(d) => !js.finite(d)
    case Array(items) => exists i :: 0 <= i < |items| && NoJson(js, items[i])
    case Object(entries) => exists i :: 0 <= i < |entries| && NoJson(js, entries[i].value)
    case _ => false
  }

  /** The document of a value. */
  ghost predicate Represents(js: JsonSide, v: SonicValue, document: Json.Value)
    decreases v
  {
    match v
    case Null | Undefined => document == Json.Null
    case Bool(b) => document == Json.Bool(b)
    case I64(i) => document == Json.Int(i)
    case U64(u) => document == Json.Int(u)
    case F32(f) => document.Float? && js.coding.widen(f) == Some(document.d)
    case F64(d) => js.finite(d) && document == Json.Float(d)
    case String(s) => document == Json.Text(s)
    case Array(items) =>
      && document.List? && |document.items| == |items|
      && forall i :: 0 <= i < |items| ==> Represents(js, items[i], document.items[i])
    case Object(entries) =>
      && document.Map? && Collapses(Keys(entries), KeysOf(document.entries))
      && forall i, j :: 0 <= i < |entries| && 0 <= j < |document.entries| && IsLast(Keys(entries), i) && entries[i].key == document.entries[j].key ==>
           Represents(js, entries[i].value, document.entries[j].value)
    case Bytes(_) => false
  }

  function Keys(entries: seq<Property>): (keys: seq<string>)
    ensures |keys| == |entries|
  {
    seq(|entries|, i requires 0 <= i < |entries| => entries[i].key)
  }

  function KeysOf(entries: seq<Json.Entry>): (keys: seq<string>)
    ensures |keys| == |entries|
  {
    seq(|entries|, i requires 0 <= i < |entries| => entries[i].key)
  }

  predicate IsFirst(keys: seq<string>, i: nat) {
    i < |keys| && forall j :: 0 <= j < i ==> keys[j] != keys[i]
  }

  predicate IsLast(keys: seq<string>, i: nat) {
    i < |keys| && forall j :: i < j < |keys| ==> keys[j] != keys[i]
  }

  /** The distinct keys of a list, in the order of their first places. */
  ghost predicate Collapses(keys: seq<string>, distinct: seq<string>) {
    exists places: seq<nat> :: CollapsesAt(keys, distinct, places)
  }

  ghost predicate CollapsesAt(keys: seq<string>, distinct: seq<string>, places: seq<nat>) {
    && |places| == |distinct|
    && (forall a :: 0 <= a < |places| ==> IsFirst(keys, places[a]) && keys[places[a]] == distinct[a])
    && (forall a, b :: 0 <= a < b < |places| ==> places[a] < places[b])
    && forall k :: k in keys ==> k in distinct
  }

  /** What is read from a document that passed through the coding: floats in single precision, and null for those beyond it. */
  ghost predicate ReadBack(c: Json.Coding, document: Json.Value, got: SonicValue)
    decreases document
  {
    match document
    case Null => got == Null
    case Bool(b) => got == Bool(b)
    case Int(n) =>
      && (-0x8000_0000_0000_0000 <= n < 0x8000_0000_0000_0000 ==> got.I64? && got.i == n)
      && (0x8000_0000_0000_0000 <= n < 0x1_0000_0000_0000_0000 ==> got.U64? && got.u == n)
    case Float(d) => (match c.widen(c.narrow(d)) case Some(e) => got == F64(e) case None => got == Null)
    case Text(s) => got == String(s)
    case List(items) =>
      && got.Array? && |got.items| == |items|
      && forall i :: 0 <= i < |items| ==> ReadBack(c, items[i], got.items[i])
    case Map(entries) =>
      && got.Object? && |got.entries| == |entries|
      && forall i :: 0 <= i < |entries| ==> got.entries[i].key == entries[i].key && ReadBack(c, entries[i].value, got.entries[i].value)
  }

  /** Values that JSON has: no undefined, no single-precision floats, integers in their signed form where they have one, no key twice. */
  ghost predicate Plain(js: JsonSide, v: SonicValue)
    decreases v
  {
    match v
    case Null | Bool(_) | I64(_) | String(_) => true
    case U64(u) => u >= 0x8000_0000_0000_0000
    case F64(d) => js.coding.widen(js.coding.narrow(d)) == Some(d)
    case Array(items) => forall i :: 0 <= i < |items| ==> Plain(js, items[i])
    case Object(entries) =>
      && (forall i, j :: 0 <= i < j < |entries| ==> entries[i].key != entries[j].key)
      && forall i :: 0 <= i < |entries| ==> Plain(js, entries[i].value)
    case _ => false
  }

  // ---- which values have a document

  /** A value has a document if and only if it holds no bytes and no float that is not a number. */
  lemma {:induction false} ToJsonFailsIff(js: JsonSide, v: SonicValue)
    ensures ToJson(js, v).Err? <==> NoJson(js, v)
    decreases v, 0
  {
    match v
    case Array(items) => ItemsFailIff(js, items);
    case Object(entries) => EntriesFailIff(js, entries, []);
    case _ =>
  }

  lemma {:induction false} ItemsFailIff(js: JsonSide, items: seq<SonicValue>)
    ensures ItemsToJson(js, items).Err? <==> exists i :: 0 <= i < |items| && NoJson(js, items[i])
    decreases items, 1
  {
    hide ToJson, NoJson;
    if items != [] {
      ToJsonFailsIff(js, items[0]);
      ItemsFailIff(js, items[1..]);
      assert forall i :: 1 <= i < |items| ==> items[i] == items[1..][i - 1];
      assert forall i :: 0 <= i < |items[1..]| ==> items[1..][i] == items[i + 1];
    }
  }

  lemma {:induction false} EntriesFailIff(js: JsonSide, entries: seq<Property>, done: seq<Json.Entry>)
    ensures EntriesToJson(js, entries, done).Err? <==> exists i :: 0 <= i < |entries| && NoJson(js, entries[i].value)
    decreases entries, 1
  {
    hide ToJson, NoJson, Json.Insert;
    if entries != [] {
      ToJsonFailsIff(js, entries[0].value);
      if ToJson(js, entries[0].value).Ok? {
        EntriesFailIff(js, entries[1..], Json.Insert(done, entries[0].key, ToJson(js, entries[0].value).value));
      }
      assert forall i :: 1 <= i < |entries| ==> entries[i] == entries[1..][i - 1];
      assert forall i :: 0 <= i < |entries[1..]| ==> entries[1..][i] == entries[i + 1];
    }
  }

  // ---- what the document is

  /** `done` is what the first `n` entries come to. */
  ghost predicate Collected(js: JsonSide, entries: seq<Property>, n: nat, done: seq<Json.Entry>)
    requires n <= |entries|
  {
    && Collapses(Keys(entries[..n]), KeysOf(done))
    && forall i, j :: 0 <= i < n && 0 <= j < |done| && IsLast(Keys(entries[..n]), i) && entries[i].key == done[j].key ==>
         ToJson(js, entries[i].value) == Ok(done[j].value)
  }

  lemma CollapsesNext(keys: seq<string>, key: string, distinct: seq<string>)
    requires Collapses(keys, distinct)
    ensures Collapses(keys + [key], if key in distinct then distinct else distinct + [key])
  {
    var places: seq<nat> :| CollapsesAt(keys, distinct, places);
    var longer := keys + [key];
    assert forall a :: 0 <= a < |places| ==> IsFirst(longer, places[a]) && longer[places[a]] == distinct[a];
    if key in distinct {
      assert CollapsesAt(longer, distinct, places);
    } else {
      assert IsFirst(longer, |keys|) by { assert forall j :: 0 <= j < |keys| ==> longer[j] in keys; }
      assert CollapsesAt(longer, distinct + [key], places + [|keys|]);
    }
  }

  /** One more entry. */
  lemma CollectsNext(js: JsonSide, entries: seq<Property>, n: nat, done: seq<Json.Entry>, value: Json.Value)
    requires n < |entries| && Collected(js, entries, n, done) && ToJson(js, entries[n].value) == Ok(value)
    ensures Collected(js, entries, n + 1, Json.Insert(done, entries[n].key, value))
  {
    hide Collapses, ToJson, Json.Insert;
    var key := entries[n].key;
    var place := InsertPlaces(done, key, value);
    var next := Json.Insert(done, key, value);
    assert entries[..n + 1] == entries[..n] + [entries[n]];
    assert Keys(entries[..n + 1]) == Keys(entries[..n]) + [key];
    CollapsesNext(Keys(entries[..n]), key, KeysOf(done));
    if place < |done| {
      assert KeysOf(done)[place] == key;
      assert KeysOf(next) == KeysOf(done);
    } else {
      assert KeysOf(next) == KeysOf(done) + [key];
      assert key !in KeysOf(done);
    }
    forall i, j | 0 <= i <= n && 0 <= j < |next| && IsLast(Keys(entries[..n + 1]), i) && entries[i].key == next[j].key
      ensures ToJson(js, entries[i].value) == Ok(next[j].value)
    {
      if i < n {
        assert Keys(entries[..n + 1])[n] == key && entries[i].key != key;
        LastBefore(Keys(entries[..n]), key, i);
        assert next[j] == done[j];
      } else if j != place {
        assert next[j] == done[j];
        KeyTwice(Keys(entries[..n]), KeysOf(done), place, j);
      }
    }
  }

  lemma LastBefore(keys: seq<string>, key: string, i: nat)
    requires i < |keys| && IsLast(keys + [key], i)
    ensures IsLast(keys, i)
  {
    assert forall j :: 0 <= j < |keys| ==> (keys + [key])[j] == keys[j];
  }

  lemma KeyTwice(keys: seq<string>, distinct: seq<string>, a: nat, b: nat)
    requires Collapses(keys, distinct) && a != b && b < |distinct|
    ensures a < |distinct| ==> distinct[a] != distinct[b]
  {
    var places: seq<nat> :| CollapsesAt(keys, distinct, places);
    if a < |distinct| {
      assert IsFirst(keys, places[a]) && IsFirst(keys, places[b]);
    }
  }

  lemma {:induction false} EntriesCollect(js: JsonSide, entries: seq<Property>, n: nat, done: seq<Json.Entry>)
    requires n <= |entries| && Collected(js, entries, n, done) && EntriesToJson(js, entries[n..], done).Ok?
    ensures Collected(js, entries, |entries|, EntriesToJson(js, entries[n..], done).value)
    decreases |entries| - n
  {
    hide Collected, ToJson, Json.Insert;
    if n < |entries| {
      assert entries[n..][1..] == entries[n + 1..];
      var value := ToJson(js, entries[n].value).value;
      CollectsNext(js, entries, n, done, value);
      EntriesCollect(js, entries, n + 1, Json.Insert(done, entries[n].key, value));
    }
  }

  lemma NothingCollected(js: JsonSide, entries: seq<Property>)
    ensures Collected(js, entries, 0, [])
  {
    assert CollapsesAt(Keys(entries[..0]), KeysOf([]), []);
  }

  /** What a value is converted to is its document. */
  lemma {:induction false} ToJsonRepresents(js: JsonSide, v: SonicValue)
    requires ToJson(js, v).Ok?
    ensures Represents(js, v, ToJson(js, v).value)
    decreases v
  {
    match v
    case Array(items) =>
      forall i | 0 <= i < |items| ensures Represents(js, items[i], ToJson(js, v).value.items[i]) {
        ItemConverted(js, items, i);
        ToJsonRepresents(js, items[i]);
      }
    case Object(entries) =>
      NothingCollected(js, entries);
      assert entries[0..] == entries && entries[..|entries|] == entries;
      EntriesCollect(js, entries, 0, []);
      var fields := ToJson(js, v).value.entries;
      forall i, j | 0 <= i < |entries| && 0 <= j < |fields| && IsLast(Keys(entries), i) && entries[i].key == fields[j].key
        ensures Represents(js, entries[i].value, fields[j].value)
      {
        ToJsonRepresents(js, entries[i].value);
      }
    case _ =>
  }

  lemma {:induction false} ItemConverted(js: JsonSide, items: seq<SonicValue>, i: nat)
    requires i < |items| && ItemsToJson(js, items).Ok?
    ensures ToJson(js, items[i]) == Ok(ItemsToJson(js, items).value[i])
    decreases |items|
  {
    hide ToJson;
    if i > 0 {
      ItemConverted(js, items[1..], i - 1);
    }
  }

  // ---- what is read from it

  lemma {:induction false} NormalIsReadBack(c: Json.Coding, document: Json.Value)
    requires c.Valid()
    ensures ReadBack(c, document, FromJson(Json.Normal(c, document)))
    decreases document
  {
    match document
    case List(items) =>
      forall i | 0 <= i < |items|
        ensures |ItemsFromJson(Json.NormalItems(c, items))| == |items|
        ensures ReadBack(c, items[i], ItemsFromJson(Json.NormalItems(c, items))[i])
      {
        ItemRead(c, items, i);
        NormalIsReadBack(c, items[i]);
      }
      if items == [] { assert ItemsFromJson(Json.NormalItems(c, items)) == []; }
    case Map(entries) =>
      forall i | 0 <= i < |entries|
        ensures |EntriesFromJson(Json.NormalEntries(c, entries))| == |entries|
        ensures var got := EntriesFromJson(Json.NormalEntries(c, entries))[i]; got.key == entries[i].key && ReadBack(c, entries[i].value, got.value)
      {
        EntryRead(c, entries, i);
        NormalIsReadBack(c, entries[i].value);
      }
      if entries == [] { assert EntriesFromJson(Json.NormalEntries(c, entries)) == []; }
    case _ =>
  }

  lemma {:induction false} ItemRead(c: Json.Coding, items: seq<Json.Value>, i: nat)
    requires i < |items|
    ensures var got := ItemsFromJson(Json.NormalItems(c, items)); |got| == |items| && got[i] == FromJson(Json.Normal(c, items[i]))
    decreases |items|
  {
    hide FromJson, Json.Normal;
    var normal := Json.NormalItems(c, items);
    assert normal[0] == Json.Normal(c, items[0]) && normal[1..] == Json.NormalItems(c, items[1..]);
    if i > 0 {
      ItemRead(c, items[1..], i - 1);
    } else if |items| > 1 {
      ItemRead(c, items[1..], 0);
    } else {
      assert ItemsFromJson([]) == [] && Json.NormalItems(c, []) == [];
    }
  }

  lemma {:induction false} EntryRead(c: Json.Coding, entries: seq<Json.Entry>, i: nat)
    requires i < |entries|
    ensures var got := EntriesFromJson(Json.NormalEntries(c, entries));
            |got| == |entries| && got[i] == Property(entries[i].key, FromJson(Json.Normal(c, entries[i].value)))
    decreases |entries|
  {
    hide FromJson, Json.Normal;
    var normal := Json.NormalEntries(c, entries);
    assert normal[0] == Json.Entry(entries[0].key, Json.Normal(c, entries[0].value)) && normal[1..] == Json.NormalEntries(c, entries[1..]);
    if i > 0 {
      EntryRead(c, entries[1..], i - 1);
    } else if |entries| > 1 {
      EntryRead(c, entries[1..], 0);
    } else {
      assert EntriesFromJson([]) == [] && Json.NormalEntries(c, []) == [];
    }
  }

  // ---- when a value comes back unchanged

  /** Distinct keys are all first and last. */
  lemma {:induction false} DistinctCollapse(keys: seq<string>, distinct: seq<string>)
    requires Collapses(keys, distinct)
    ensures |distinct| <= |keys|
    ensures |distinct| == |keys| <==> forall i, j :: 0 <= i < j < |keys| ==> keys[i] != keys[j]
    ensures |distinct| == |keys| ==> distinct == keys
  {
    var places: seq<nat> :| CollapsesAt(keys, distinct, places);
    PlacesGrow(places, |places|, |keys|);
    if forall i, j :: 0 <= i < j < |keys| ==> keys[i] != keys[j] {
      AllPlaces(keys, distinct, places, |keys|);
    }
    if |distinct| == |keys| {
      forall a | 0 <= a < |keys| ensures places[a] == a {
        PlacesGrow(places, a, |keys|);
        PlacesBelow(places, a, |keys|);
      }
      assert forall a :: 0 <= a < |keys| ==> IsFirst(keys, places[a]);
      assert forall a :: 0 <= a < |keys| ==> distinct[a] == keys[a];
    }
  }

  /** Growing numbers grow at least by one. */
  lemma {:induction false} PlacesGrow(places: seq<nat>, a: nat, limit: nat)
    requires (forall b, c :: 0 <= b < c < |places| ==> places[b] < places[c]) && (forall b :: 0 <= b < |places| ==> places[b] < limit)
    requires a <= |places|
    ensures a < |places| ==> places[a] >= a
    ensures |places| <= limit
    decreases |places| - a, a
  {
    AtLeast(places, if a < |places| then a else 0);
    if |places| > 0 {
      AtLeast(places, |places| - 1);
    }
  }

  lemma {:induction false} AtLeast(places: seq<nat>, a: nat)
    requires forall b, c :: 0 <= b < c < |places| ==> places[b] < places[c]
    ensures a < |places| ==> places[a] >= a
  {
    if 0 < a < |places| {
      AtLeast(places, a - 1);
    }
  }

  lemma {:induction false} PlacesBelow(places: seq<nat>, a: nat, limit: nat)
    requires (forall b, c :: 0 <= b < c < |places| ==> places[b] < places[c]) && (forall b :: 0 <= b < |places| ==> places[b] < limit)
    requires a < |places|
    ensures places[a] + (|places| - a) <= limit
    decreases |places| - a
  {
    if a + 1 < |places| {
      PlacesBelow(places, a + 1, limit);
    }
  }

  /** If all keys differ, each is at its own place. */
  lemma {:induction false} AllPlaces(keys: seq<string>, distinct: seq<string>, places: seq<nat>, n: nat)
    requires CollapsesAt(keys, distinct, places) && n <= |keys| && forall i, j :: 0 <= i < j < |keys| ==> keys[i] != keys[j]
    ensures |places| >= n && forall i :: 0 <= i < n ==> places[i] == i
  {
    if n > 0 {
      var i := n - 1;
      AllPlaces(keys, distinct, places, i);
      assert keys[i] in distinct;
      var a :| 0 <= a < |distinct| && distinct[a] == keys[i];
      assert places[a] == i;
      AtLeast(places, i);
    }
  }

  lemma LeafReadBackIff(js: JsonSide, v: SonicValue, document: Json.Value, got: SonicValue)
    requires !v.Array? && !v.Object? && Represents(js, v, document) && ReadBack(js.coding, document, got)
    ensures got == v <==> Plain(js, v)
  {
  }

  lemma ListReadBackIff(js: JsonSide, items: seq<SonicValue>, got: SonicValue)
    requires got.Array? && |got.items| == |items| && forall i :: 0 <= i < |items| ==> (got.items[i] == items[i] <==> Plain(js, items[i]))
    ensures got == Array(items) <==> Plain(js, Array(items))
  {
    assert got == Array(items) <==> forall i :: 0 <= i < |items| ==> got.items[i] == items[i];
  }

  lemma ObjectReadBackIff(js: JsonSide, entries: seq<Property>, got: SonicValue)
    requires got.Object? && (|got.entries| == |entries| <==> forall i, j :: 0 <= i < j < |entries| ==> entries[i].key != entries[j].key)
    requires |got.entries| == |entries| ==> forall i :: 0 <= i < |entries| ==> (got.entries[i] == entries[i] <==> Plain(js, entries[i].value))
    ensures got == Object(entries) <==> Plain(js, Object(entries))
  {
    assert got == Object(entries) <==> |got.entries| == |entries| && forall i :: 0 <= i < |entries| ==> got.entries[i] == entries[i];
  }

  /** A document read back is the value it was made from if and only if JSON has that value and single precision its floats. */
  lemma {:induction false} ReadBackIff(js: JsonSide, v: SonicValue, document: Json.Value, got: SonicValue)
    requires Represents(js, v, document) && ReadBack(js.coding, document, got)
    ensures got == v <==> Plain(js, v)
    decreases v
  {
    hide Plain, Collapses;
    match v
    case Array(items) =>
      forall i | 0 <= i < |items| ensures got.items[i] == items[i] <==> Plain(js, items[i]) {
        ReadBackIff(js, items[i], document.items[i], got.items[i]);
      }
      ListReadBackIff(js, items, got);
    case Object(entries) =>
      var fields := document.entries;
      DistinctCollapse(Keys(entries), KeysOf(fields));
      SameKeys(entries);
      if |fields| == |entries| {
        forall i | 0 <= i < |entries| ensures got.entries[i] == entries[i] <==> Plain(js, entries[i].value) {
          assert KeysOf(fields)[i] == Keys(entries)[i] && IsLast(Keys(entries), i);
          ReadBackIff(js, entries[i].value, fields[i].value, got.entries[i].value);
        }
      }
      ObjectReadBackIff(js, entries, got);
    case _ => LeafReadBackIff(js, v, document, got);
  }

  lemma SameKeys(entries: seq<Property>)
    ensures (forall i, j :: 0 <= i < j < |Keys(entries)| ==> Keys(entries)[i] != Keys(entries)[j]) <==>
            forall i, j :: 0 <= i < j < |entries| ==> entries[i].key != entries[j].key
  {
    if forall i, j :: 0 <= i < j < |Keys(entries)| ==> Keys(entries)[i] != Keys(entries)[j] {
      forall i, j | 0 <= i < j < |entries| ensures entries[i].key != entries[j].key {
        assert Keys(entries)[i] == entries[i].key && Keys(entries)[j] == entries[j].key;
      }
    }
  }

  /** A value that has a document comes back unchanged from its coding if and only if it is plain. */
  lemma JsonIsIdentityIff(js: JsonSide, v: SonicValue)
    requires js.coding.Valid() && ToJson(js, v).Ok?
    ensures FromJson(Json.Normal(js.coding, ToJson(js, v).value)) == v <==> Plain(js, v)
  {
    hide ToJson, FromJson, Json.Normal, Represents, ReadBack, Plain;
    var document := ToJson(js, v).value;
    ToJsonRepresents(js, v);
    NormalIsReadBack(js.coding, document);
    ReadBackIff(js, v, document, FromJson(Json.Normal(js.coding, document)));
  }

  // ---- a value has one document

  predicate Growing(places: seq<nat>) {
    forall a, b :: 0 <= a < b < |places| ==> places[a] < places[b]
  }

  /** Growing lists of the same numbers agree. */
  lemma {:induction false} SameGrowing(one: seq<nat>, other: seq<nat>, n: nat)
    requires Growing(one) && Growing(other) && n <= |one| && forall x :: x in one <==> x in other
    ensures n <= |other| && forall m :: 0 <= m < n ==> one[m] == other[m]
  {
    if n > 0 {
      var k := n - 1;
      SameGrowing(one, other, k);
      assert one[k] in other;
      var j :| 0 <= j < |other| && other[j] == one[k];
      assert other[k] in one;
      var i :| 0 <= i < |one| && one[i] == other[k];
    }
  }

  lemma PlacesAreFirsts(keys: seq<string>, distinct: seq<string>, places: seq<nat>, i: nat)
    requires CollapsesAt(keys, distinct, places)
    ensures i in places <==> IsFirst(keys, i)
  {
    if IsFirst(keys, i) {
      assert keys[i] in distinct;
      var a :| 0 <= a < |distinct| && distinct[a] == keys[i];
      assert IsFirst(keys, places[a]) && places[a] == i;
    }
  }

  lemma CollapseIsUnique(keys: seq<string>, one: seq<string>, other: seq<string>)
    requires Collapses(keys, one) && Collapses(keys, other)
    ensures one == other
  {
    var a: seq<nat> :| CollapsesAt(keys, one, a);
    var b: seq<nat> :| CollapsesAt(keys, other, b);
    forall x ensures x in a <==> x in b {
      if x in a || x in b {
        PlacesAreFirsts(keys, one, a, x);
        PlacesAreFirsts(keys, other, b, x);
      }
    }
    SameGrowing(a, b, |a|);
    SameGrowing(b, a, |b|);
    assert a == b;
    assert forall j :: 0 <= j < |one| ==> one[j] == keys[a[j]] == other[j];
  }

  lemma {:induction false} LastPlace(keys: seq<string>, key: string) returns (i: nat)
    requires key in keys
    ensures IsLast(keys, i) && keys[i] == key
  {
    var n := |keys| - 1;
    if keys[n] == key {
      i := n;
    } else {
      assert keys == keys[..n] + [keys[n]];
      i := LastPlace(keys[..n], key);
      assert forall j :: i < j < n ==> keys[j] == keys[..n][j];
    }
  }

  /** Every key of a collapsed list is one of the list. */
  lemma DistinctIsKey(keys: seq<string>, distinct: seq<string>, j: nat)
    requires Collapses(keys, distinct) && j < |distinct|
    ensures distinct[j] in keys
  {
    var places: seq<nat> :| CollapsesAt(keys, distinct, places);
    assert IsFirst(keys, places[j]);
  }

  lemma {:induction false} RepresentsIsUnique(js: JsonSide, v: SonicValue, one: Json.Value, other: Json.Value)
    requires Represents(js, v, one) && Represents(js, v, other)
    ensures one == other
    decreases v
  {
    hide Collapses;
    match v
    case Array(items) =>
      forall i | 0 <= i < |items| ensures one.items[i] == other.items[i] {
        RepresentsIsUnique(js, items[i], one.items[i], other.items[i]);
      }
      assert one.items == other.items;
    case Object(entries) =>
      var keys := Keys(entries);
      CollapseIsUnique(keys, KeysOf(one.entries), KeysOf(other.entries));
      assert |KeysOf(one.entries)| == |KeysOf(other.entries)|;
      forall j | 0 <= j < |one.entries| ensures one.entries[j] == other.entries[j] {
        assert KeysOf(one.entries)[j] == KeysOf(other.entries)[j];
        DistinctIsKey(keys, KeysOf(one.entries), j);
        var i := LastPlace(keys, one.entries[j].key);
        assert entries[i].key == keys[i];
        RepresentsIsUnique(js, entries[i].value, one.entries[j].value, other.entries[j].value);
      }
      assert one.entries == other.entries;
    case _ =>
  }

  /** A value is converted to its document, and to nothing else. */
  lemma ToJsonIff(js: JsonSide, v: SonicValue, document: Json.Value)
    ensures ToJson(js, v) == Ok(document) <==> !NoJson(js, v) && Represents(js, v, document)
  {
    hide ToJson, NoJson, Represents;
    ToJsonFailsIff(js, v);
    if ToJson(js, v).Ok? {
      ToJsonRepresents(js, v);
      if Represents(js, v, document) {
        RepresentsIsUnique(js, v, document, ToJson(js, v).value);
      }
    }
  }

  // ---- arbitrary bytes

  /** Whatever the streams, no object that is decoded has a key twice. */
  lemma {:induction false} DecodedIsUnique(c: Json.Coding, src: Json.Source, at: Json.Position, depth: nat)
    requires src.Covers(at) && Json.DecodeValue(c, src, at, depth).Ok?
    ensures Json.UniqueKeys(Json.DecodeValue(c, src, at, depth).value.0)
    decreases |src.types| - at.t, 0, 0
  {
    hide Varint.Read, Json.ReadString, Json.UniqueKeys, Json.DecodeItems, Json.DecodeEntries, Distinct;
    var kind := src.types[at.t];
    var next := at.(t := at.t + 1);
    if kind == Json.ARRAY {
      var count := Varint.Read(src.bytes, next.o).value;
      DecodedItemsAreUnique(c, src, count.0, next.(o := count.1), depth + 1);
      UniqueList(Json.DecodeItems(c, src, count.0, next.(o := count.1), depth + 1).value.0);
    } else if kind == Json.OBJECT {
      var count := Varint.Read(src.bytes, next.o).value;
      NothingTwice();
      DecodedEntriesAreUnique(c, src, count.0, next.(o := count.1), depth + 1, []);
      DistinctMap(Json.DecodeEntries(c, src, count.0, next.(o := count.1), depth + 1, []).value.0);
    } else {
      LeafIsUnique(Json.DecodeValue(c, src, at, depth).value.0);
    }
  }

  lemma UniqueList(items: seq<Json.Value>)
    requires forall i :: 0 <= i < |items| ==> Json.UniqueKeys(items[i])
    ensures Json.UniqueKeys(Json.List(items))
  {
  }

  lemma DistinctMap(entries: seq<Json.Entry>)
    requires Distinct(entries)
    ensures Json.UniqueKeys(Json.Map(entries))
  {
  }

  lemma NothingTwice()
    ensures Distinct([])
  {
  }

  lemma LeafIsUnique(v: Json.Value)
    requires !v.List? && !v.Map?
    ensures Json.UniqueKeys(v)
  {
  }

  lemma {:induction false} DecodedItemsAreUnique(c: Json.Coding, src: Json.Source, count: nat, at: Json.Position, depth: nat)
    requires src.Covers(at) && Json.DecodeItems(c, src, count, at, depth).Ok?
    ensures forall i :: 0 <= i < |Json.DecodeItems(c, src, count, at, depth).value.0| ==> Json.UniqueKeys(Json.DecodeItems(c, src, count, at, depth).value.0[i])
    decreases |src.types| - at.t, 1, count
  {
    hide Json.UniqueKeys, Json.DecodeValue;
    if count > 0 {
      DecodedIsUnique(c, src, at, depth);
      DecodedItemsAreUnique(c, src, count - 1, Json.DecodeValue(c, src, at, depth).value.1, depth);
    }
  }

  lemma {:induction false} DecodedEntriesAreUnique(c: Json.Coding, src: Json.Source, count: nat, at: Json.Position, depth: nat, done: seq<Json.Entry>)
    requires src.Covers(at) && Json.DecodeEntries(c, src, count, at, depth, done).Ok? && Distinct(done)
    ensures Distinct(Json.DecodeEntries(c, src, count, at, depth, done).value.0)
    decreases |src.types| - at.t, 1, count
  {
    hide Json.UniqueKeys, Json.DecodeValue, Json.ReadString, Json.Insert, Distinct;
    if count > 0 {
      var key := Json.ReadString(c, src.bytes, at.o).value;
      var first := Json.DecodeValue(c, src, at.(o := key.1), depth).value;
      DecodedIsUnique(c, src, at.(o := key.1), depth);
      InsertKeepsDistinct(done, key.0, first.0);
      DecodedEntriesAreUnique(c, src, count - 1, first.1, depth, Json.Insert(done, key.0, first.0));
    }
  }
}
