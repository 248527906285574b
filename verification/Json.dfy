/** JSON in three streams: booleans as bits, types in three bits each, everything else as bytes (`rust/src/json.rs`). */
module Json {
  import opened Primitives
  import opened Integers
  import Bits
  import Schema
  import Varint

  /** A JSON value; the entries of an object keep their order and have distinct keys. */
  datatype Value =
    | Null
    | Bool(b: bool)
    | Int(n: int)
    | Float(d: Schema.Float64)
    | Text(s: string)
    | List(items: seq<Value>)
    | Map(entries: seq<Entry>)

  datatype Entry = Entry(key: string, value: Value)

  const NULL: byte := 0
  const BOOL: byte := 1
  const INT: byte := 2
  const FLOAT: byte := 3
  const STRING: byte := 4
  const ARRAY: byte := 5
  const OBJECT: byte := 6

  const MAX_DEPTH: nat := 500

  /** UTF-8 and floating-point conversions; `widen` has no result for infinities and NaN. */
  datatype Coding = Coding(
    utf8: string -> seq<byte>,
    fromUtf8: seq<byte> -> Option<string>,
    narrow: Schema.Float64 -> Schema.Float32,
    bits32: Schema.Float32 -> seq<byte>,
    fromBits32: seq<byte> -> Schema.Float32,
    widen: Schema.Float32 -> Option<Schema.Float64>) {
    ghost predicate Valid() {
      && (forall s :: fromUtf8(utf8(s)) == Some(s))
      && (forall f :: |bits32(f)| == 4 && fromBits32(bits32(f)) == f)
    }
  }

  datatype Streams = Streams(bools: seq<bool>, types: seq<byte>, payload: seq<byte>) {
    function Then(next: Streams): Streams {
      Streams(bools + next.bools, types + next.types, payload + next.payload)
    }
  }

  const NOTHING: Streams := Streams([], [], [])

  function OfType(kind: byte, payload: seq<byte>): Streams {
    Streams([], [kind], payload)
  }

  // ---- encoding

  function StringBytes(c: Coding, s: string): seq<byte> {
    Varint.Encode(|c.utf8(s)|) + c.utf8(s)
  }

  function EncodeValue(c: Coding, v: Value, depth: nat): Result<Streams>
    decreases v
  {
    if depth > MAX_DEPTH then Err(InvalidData)
    else match v
      case Null => Ok(OfType(NULL, []))
      case Bool(b) => Ok(Streams([b], [BOOL], []))
      case Int(n) => if InI32(n) then Ok(OfType(INT, Varint.Encode(ZigzagEncode(n)))) else Err(InvalidData)
      case Float(d) => Ok(OfType(FLOAT, c.bits32(c.narrow(d))))
      case Text(s) => Ok(OfType(STRING, StringBytes(c, s)))
      case List(items) =>
        var rest :- EncodeItems(c, items, depth + 1);
        Ok(OfType(ARRAY, Varint.Encode(|items|)).Then(rest))
      case Map(entries) =>
        var rest :- EncodeEntries(c, entries, depth + 1);
        Ok(OfType(OBJECT, Varint.Encode(|entries|)).Then(rest))
  }

  function EncodeItems(c: Coding, items: seq<Value>, depth: nat): Result<Streams>
    decreases items
  {
    if items == [] then Ok(NOTHING)
    else
      var first :- EncodeValue(c, items[0], depth);
      var rest :- EncodeItems(c, items[1..], depth);
      Ok(first.Then(rest))
  }

  function EncodeEntries(c: Coding, entries: seq<Entry>, depth: nat): Result<Streams>
    decreases entries
  {
    if entries == [] then Ok(NOTHING)
    else
      var first :- EncodeValue(c, entries[0].value, depth);
      var rest :- EncodeEntries(c, entries[1..], depth);
      Ok(Streams([], [], StringBytes(c, entries[0].key)).Then(first.Then(rest)))
  }

  // ---- decoding

  /** The three cursors. */
  datatype Position = Position(t: nat, b: nat, o: nat) {
    function Past(s: Streams): Position {
      Position(t + |s.types|, b + |s.bools|, o + |s.payload|)
    }
  }

  /** The streams that a decoder reads from. */
  datatype Source = Source(bools: seq<bool>, types: seq<byte>, bytes: seq<byte>) {
    predicate Covers(at: Position) {
      at.t <= |types| && at.b <= |bools| && at.o <= |bytes|
    }

    ghost predicate Carries(at: Position, s: Streams) {
      HasAt(bools, at.b, s.bools) && HasAt(types, at.t, s.types) && HasAt(bytes, at.o, s.payload)
    }
  }

  function ReadString(c: Coding, bytes: seq<byte>, off: nat): (r: Result<(string, nat)>)
    requires off <= |bytes|
    ensures r.Ok? ==> off < r.value.1 <= |bytes|
  {
    var length :- Varint.Read(bytes, off);
    var text :- ReadExactAt(bytes, length.1, length.0);
    match c.fromUtf8(text)
    case Some(s) => Ok((s, length.1 + length.0))
    case None => Err(InvalidData)
  }

  function FloatValue(c: Coding, bytes: seq<byte>): Value {
    match c.widen(c.fromBits32(bytes))
    case Some(d) => Float(d)
    case None => Null
  }

  /** `Map::insert`: a known key keeps its place and gets the new value. */
  function Insert(entries: seq<Entry>, key: string, value: Value): seq<Entry> {
    if entries == [] then [Entry(key, value)]
    else if entries[0].key == key then [Entry(key, value)] + entries[1..]
    else [entries[0]] + Insert(entries[1..], key, value)
  }

  /**
   * Decodes one value. Every call uses up one entry of the type stream, whatever counts the payload announces;
   * this is why decoding ends on all inputs, and no cursor ever leaves its stream.
   */
  function DecodeValue(c: Coding, src: Source, at: Position, depth: nat): (r: Result<(Value, Position)>)
    requires src.Covers(at)
    ensures r.Ok? ==> src.Covers(r.value.1) && at.t < r.value.1.t && at.b <= r.value.1.b && at.o <= r.value.1.o
    decreases |src.types| - at.t, 0, 0
  {
    if depth > MAX_DEPTH || at.t == |src.types| then Err(InvalidData)
    else
      var kind := src.types[at.t];
      var next := at.(t := at.t + 1);
      if kind == NULL then Ok((Null, next))
      else if kind == BOOL then
        if next.b == |src.bools| then Err(InvalidData)
        else Ok((Bool(src.bools[next.b]), next.(b := next.b + 1)))
      else if kind == INT then
        var n :- Varint.Read(src.bytes, next.o);
        Ok((Int(ZigzagDecode(n.0)), next.(o := n.1)))
      else if kind == FLOAT then
        var raw :- ReadExactAt(src.bytes, next.o, 4);
        Ok((FloatValue(c, raw), next.(o := next.o + 4)))
      else if kind == STRING then
        var s :- ReadString(c, src.bytes, next.o);
        Ok((Text(s.0), next.(o := s.1)))
      else if kind == ARRAY then
        var count :- Varint.Read(src.bytes, next.o);
        var items :- DecodeItems(c, src, count.0, next.(o := count.1), depth + 1);
        Ok((List(items.0), items.1))
      else if kind == OBJECT then
        var count :- Varint.Read(src.bytes, next.o);
        var entries :- DecodeEntries(c, src, count.0, next.(o := count.1), depth + 1, []);
        Ok((Map(entries.0), entries.1))
      else Err(InvalidData)
  }

  function DecodeItems(c: Coding, src: Source, count: nat, at: Position, depth: nat): (r: Result<(seq<Value>, Position)>)
    requires src.Covers(at)
    ensures r.Ok? ==> |r.value.0| == count && src.Covers(r.value.1) && at.t + count <= r.value.1.t && at.b <= r.value.1.b && at.o <= r.value.1.o
    decreases |src.types| - at.t, 1, count
  {
    if count == 0 then Ok(([], at))
    else
      var first :- DecodeValue(c, src, at, depth);
      var rest :- DecodeItems(c, src, count - 1, first.1, depth);
      Ok(([first.0] + rest.0, rest.1))
  }

  function DecodeEntries(c: Coding, src: Source, count: nat, at: Position, depth: nat, done: seq<Entry>):
      (r: Result<(seq<Entry>, Position)>)
    requires src.Covers(at)
    ensures r.Ok? ==> src.Covers(r.value.1) && at.t + count <= r.value.1.t && at.b <= r.value.1.b && at.o <= r.value.1.o
    decreases |src.types| - at.t, 1, count
  {
    if count == 0 then Ok((done, at))
    else
      var key :- ReadString(c, src.bytes, at.o);
      var first :- DecodeValue(c, src, at.(o := key.1), depth);
      DecodeEntries(c, src, count - 1, first.1, depth, Insert(done, key.0, first.0))
  }

  // ---- the value that comes back

  /** Floats pass through single precision, and those that overflow it become null. */
  function Normal(c: Coding, v: Value): Value
    decreases v
  {
    match v
    case Float(d) => FloatValue(c, c.bits32(c.narrow(d)))
    case List(items) => List(NormalItems(c, items))
    case Map(entries) => Map(NormalEntries(c, entries))
    case _ => v
  }

  function NormalItems(c: Coding, items: seq<Value>): seq<Value>
    decreases items
  {
    if items == [] then [] else [Normal(c, items[0])] + NormalItems(c, items[1..])
  }

  function NormalEntries(c: Coding, entries: seq<Entry>): (r: seq<Entry>)
    ensures |r| == |entries| && forall i :: 0 <= i < |r| ==> r[i].key == entries[i].key
    decreases entries
  {
    if entries == [] then [] else [Entry(entries[0].key, Normal(c, entries[0].value))] + NormalEntries(c, entries[1..])
  }

  /** No object has a key twice. */
  ghost predicate UniqueKeys(v: Value)
    decreases v
  {
    match v
    case List(items) => forall i :: 0 <= i < |items| ==> UniqueKeys(items[i])
    case Map(entries) =>
      && (forall i, j :: 0 <= i < j < |entries| ==> entries[i].key != entries[j].key)
      && UniqueBelow(entries)
    case _ => true
  }

  lemma CarriesThen(src: Source, at: Position, first: Streams, rest: Streams)
    ensures src.Carries(at, first.Then(rest)) <==> src.Carries(at, first) && src.Carries(at.Past(first), rest)
    ensures at.Past(first.Then(rest)) == at.Past(first).Past(rest)
  {
    HasAtConcat(src.bools, at.b, first.bools, rest.bools);
    HasAtConcat(src.types, at.t, first.types, rest.types);
    HasAtConcat(src.bytes, at.o, first.payload, rest.payload);
  }

  lemma CarriedIsCovered(src: Source, at: Position, s: Streams)
    requires src.Carries(at, s)
    ensures src.Covers(at) && src.Covers(at.Past(s))
  {
  }

  lemma ReadStringBytes(c: Coding, bytes: seq<byte>, off: nat, s: string)
    requires c.Valid() && |bytes| < U64_LIMIT && HasAt(bytes, off, StringBytes(c, s))
    ensures off <= |bytes| && ReadString(c, bytes, off) == Ok((s, off + |StringBytes(c, s)|))
  {
    hide Varint.Read, Varint.Encode;
    HasAtConcat(bytes, off, Varint.Encode(|c.utf8(s)|), c.utf8(s));
    Varint.ReadOfEncode(bytes, off, |c.utf8(s)|);
  }

  lemma {:induction false} EveryItemHasAType(c: Coding, items: seq<Value>, entries: seq<Entry>, depth: nat)
    ensures EncodeItems(c, items, depth).Ok? ==> |items| <= |EncodeItems(c, items, depth).value.types|
    ensures EncodeEntries(c, entries, depth).Ok? ==> |entries| <= |EncodeEntries(c, entries, depth).value.types|
    decreases |items| + |entries|
  {
    hide Varint.Encode, StringBytes;
    if items != [] {
      EveryItemHasAType(c, items[1..], [], depth);
    }
    if entries != [] {
      EveryItemHasAType(c, [], entries[1..], depth);
    }
  }

  /** The streams fit the address space. */
  ghost predicate Addressable(src: Source) {
    |src.types| < U64_LIMIT && |src.bytes| < U64_LIMIT
  }

  /**
   * Decoding inside any larger streams: the value comes back, and each of the three cursors moves by exactly what
   * the value contributed to its stream.
   */
  lemma {:induction false} DecodeOfEncode(c: Coding, v: Value, depth: nat, src: Source, at: Position)
    requires c.Valid() && UniqueKeys(v) && Addressable(src)
    requires EncodeValue(c, v, depth).Ok? && src.Carries(at, EncodeValue(c, v, depth).value)
    ensures src.Covers(at)
    ensures DecodeValue(c, src, at, depth) == Ok((Normal(c, v), at.Past(EncodeValue(c, v, depth).value)))
    decreases v, 0
  {
    hide Varint.Read, Varint.Encode, HasAt, ReadString, StringBytes, c.Valid(), EncodeItems, EncodeEntries, DecodeItems, DecodeEntries,
      NormalItems, NormalEntries;
    var s := EncodeValue(c, v, depth).value;
    CarriedIsCovered(src, at, s);
    HasAtElement(src.types, at.t, s.types, 0);
    match v
    case List(items) =>
      var rest := EncodeItems(c, items, depth + 1).value;
      EveryItemHasAType(c, items, [], depth + 1);
      CountIsRead(src, at, ARRAY, |items|, rest);
      DecodeItemsOfEncode(c, items, depth + 1, src, at.Past(OfType(ARRAY, Varint.Encode(|items|))));
    case Map(entries) =>
      var rest := EncodeEntries(c, entries, depth + 1).value;
      EveryItemHasAType(c, [], entries, depth + 1);
      CountIsRead(src, at, OBJECT, |entries|, rest);
      DecodeEntriesOfEncode(c, entries, depth + 1, src, at.Past(OfType(OBJECT, Varint.Encode(|entries|))), []);
      assert [] + NormalEntries(c, entries) == NormalEntries(c, entries);
    case _ => DecodeOfEncodedLeaf(c, v, depth, src, at);
  }

  lemma DecodeOfEncodedLeaf(c: Coding, v: Value, depth: nat, src: Source, at: Position)
    requires c.Valid() && Addressable(src) && !v.List? && !v.Map?
    requires EncodeValue(c, v, depth).Ok? && src.Carries(at, EncodeValue(c, v, depth).value)
    ensures src.Covers(at)
    ensures DecodeValue(c, src, at, depth) == Ok((Normal(c, v), at.Past(EncodeValue(c, v, depth).value)))
  {
    hide Varint.Read, Varint.Encode, HasAt, ReadString, StringBytes, c.Valid(), DecodeItems, DecodeEntries;
    var s := EncodeValue(c, v, depth).value;
    CarriedIsCovered(src, at, s);
    HasAtElement(src.types, at.t, s.types, 0);
    match v
    case Null =>
    case Bool(b) => HasAtElement(src.bools, at.b, s.bools, 0);
    case Int(n) =>
      ZigzagInverse(n, 0);
      Varint.ReadOfEncode(src.bytes, at.o, ZigzagEncode(n));
    case Float(d) => ReadFloat(c, src, at, d);
    case Text(text) => ReadStringBytes(c, src.bytes, at.o, text);
  }

  lemma ReadFloat(c: Coding, src: Source, at: Position, d: Schema.Float64)
    requires c.Valid() && HasAt(src.bytes, at.o, c.bits32(c.narrow(d)))
    ensures at.o <= |src.bytes| && ReadExactAt(src.bytes, at.o, 4) == Ok(c.bits32(c.narrow(d)))
    ensures |c.bits32(c.narrow(d))| == 4
  {
  }

  lemma CountIsRead(src: Source, at: Position, kind: byte, count: nat, rest: Streams)
    requires Addressable(src) && src.Carries(at, OfType(kind, Varint.Encode(count)).Then(rest)) && count <= |rest.types|
    ensures src.Covers(at) && src.Carries(at.Past(OfType(kind, Varint.Encode(count))), rest)
    ensures Varint.Read(src.bytes, at.o) == Ok((count, at.o + |Varint.Encode(count)|))
    ensures at.Past(OfType(kind, Varint.Encode(count)).Then(rest)) == at.Past(OfType(kind, Varint.Encode(count))).Past(rest)
  {
    hide Varint.Read, Varint.Encode;
    CarriesThen(src, at, OfType(kind, Varint.Encode(count)), rest);
    CarriedIsCovered(src, at, OfType(kind, Varint.Encode(count)));
    CarriedIsCovered(src, at.Past(OfType(kind, Varint.Encode(count))), rest);
    Varint.ReadOfEncode(src.bytes, at.o, count);
  }

  lemma {:induction false} DecodeItemsOfEncode(c: Coding, items: seq<Value>, depth: nat, src: Source, at: Position)
    requires c.Valid() && Addressable(src) && forall i :: 0 <= i < |items| ==> UniqueKeys(items[i])
    requires EncodeItems(c, items, depth).Ok? && src.Carries(at, EncodeItems(c, items, depth).value)
    ensures src.Covers(at)
    ensures DecodeItems(c, src, |items|, at, depth) == Ok((NormalItems(c, items), at.Past(EncodeItems(c, items, depth).value)))
    decreases items, 1
  {
    hide EncodeValue, DecodeValue, Normal, c.Valid(), UniqueKeys, HasAt;
    CarriedIsCovered(src, at, EncodeItems(c, items, depth).value);
    if items != [] {
      var first, rest := EncodeValue(c, items[0], depth).value, EncodeItems(c, items[1..], depth).value;
      CarriesThen(src, at, first, rest);
      DecodeOfEncode(c, items[0], depth, src, at);
      DecodeItemsOfEncode(c, items[1..], depth, src, at.Past(first));
    }
  }

  lemma {:induction false} InsertNewKey(entries: seq<Entry>, key: string, value: Value)
    requires forall i :: 0 <= i < |entries| ==> entries[i].key != key
    ensures Insert(entries, key, value) == entries + [Entry(key, value)]
  {
    if entries != [] {
      InsertNewKey(entries[1..], key, value);
      assert entries == [entries[0]] + entries[1..];
    }
  }

  /** No key of `entries` occurs twice or in `done`. */
  ghost predicate NewKeys(done: seq<Entry>, entries: seq<Entry>) {
    && (forall i, j :: 0 <= i < j < |entries| ==> entries[i].key != entries[j].key)
    && (forall i, j :: 0 <= i < |done| && 0 <= j < |entries| ==> done[i].key != entries[j].key)
  }

  ghost predicate UniqueBelow(entries: seq<Entry>)
    decreases entries
  {
    forall i :: 0 <= i < |entries| ==> UniqueKeys(entries[i].value)
  }

  lemma UniqueBelowTail(entries: seq<Entry>)
    requires entries != [] && UniqueBelow(entries)
    ensures UniqueKeys(entries[0].value) && UniqueBelow(entries[1..])
  {
  }

  lemma KeyIsDone(done: seq<Entry>, entries: seq<Entry>, entry: Entry)
    requires entries != [] && NewKeys(done, entries) && entry.key == entries[0].key
    ensures Insert(done, entry.key, entry.value) == done + [entry]
    ensures NewKeys(done + [entry], entries[1..])
  {
    InsertNewKey(done, entry.key, entry.value);
  }

  lemma EntryIsRead(c: Coding, key: string, first: Streams, rest: Streams, src: Source, at: Position)
    requires c.Valid() && Addressable(src)
    requires src.Carries(at, Streams([], [], StringBytes(c, key)).Then(first.Then(rest)))
    ensures var inner := at.(o := at.o + |StringBytes(c, key)|);
            && at.o <= |src.bytes| && ReadString(c, src.bytes, at.o) == Ok((key, inner.o))
            && src.Covers(inner) && src.Carries(inner, first) && src.Carries(inner.Past(first), rest)
            && at.Past(Streams([], [], StringBytes(c, key)).Then(first.Then(rest))) == inner.Past(first).Past(rest)
  {
    hide HasAt, ReadString, StringBytes, c.Valid();
    var head := Streams([], [], StringBytes(c, key));
    CarriesThen(src, at, head, first.Then(rest));
    ReadStringBytes(c, src.bytes, at.o, key);
    CarriesThen(src, at.Past(head), first, rest);
    CarriedIsCovered(src, at.Past(head), first);
  }

  lemma AppendNormal(c: Coding, entries: seq<Entry>, done: seq<Entry>)
    requires entries != []
    ensures (done + [Entry(entries[0].key, Normal(c, entries[0].value))]) + NormalEntries(c, entries[1..]) == done + NormalEntries(c, entries)
  {
    hide Normal;
  }

  lemma DecodeNoEntries(c: Coding, src: Source, at: Position, depth: nat, done: seq<Entry>)
    requires src.Covers(at)
    ensures DecodeEntries(c, src, 0, at, depth, done) == Ok((done + NormalEntries(c, []), at.Past(NOTHING)))
  {
    assert done + [] == done;
  }

  lemma DecodeOneEntry(c: Coding, src: Source, count: nat, at: Position, depth: nat, done: seq<Entry>, key: string, inner: Position,
                       value: Value, next: Position)
    requires src.Covers(at) && count > 0
    requires ReadString(c, src.bytes, at.o) == Ok((key, inner.o)) && inner == at.(o := inner.o) && src.Covers(inner)
    requires DecodeValue(c, src, inner, depth) == Ok((value, next)) && src.Covers(next)
    ensures DecodeEntries(c, src, count, at, depth, done) == DecodeEntries(c, src, count - 1, next, depth, Insert(done, key, value))
  {
    hide DecodeValue, ReadString, Insert;
  }

  lemma {:induction false} DecodeEntriesOfEncode(c: Coding, entries: seq<Entry>, depth: nat, src: Source, at: Position, done: seq<Entry>)
    requires c.Valid() && Addressable(src) && UniqueBelow(entries) && NewKeys(done, entries)
    requires EncodeEntries(c, entries, depth).Ok? && src.Carries(at, EncodeEntries(c, entries, depth).value)
    ensures src.Covers(at)
    ensures DecodeEntries(c, src, |entries|, at, depth, done) ==
            Ok((done + NormalEntries(c, entries), at.Past(EncodeEntries(c, entries, depth).value)))
    decreases entries, 1
  {
    hide EncodeValue, DecodeValue, Normal, c.Valid(), UniqueKeys, HasAt, ReadString, StringBytes, NewKeys, UniqueBelow, Insert, Source.Carries, NormalEntries, DecodeEntries, Source.Covers;
    CarriedIsCovered(src, at, EncodeEntries(c, entries, depth).value);
    if entries == [] {
      DecodeNoEntries(c, src, at, depth, done);
    } else {
      var key := entries[0].key;
      var first, rest := EncodeValue(c, entries[0].value, depth).value, EncodeEntries(c, entries[1..], depth).value;
      var inner := at.(o := at.o + |StringBytes(c, key)|);
      UniqueBelowTail(entries);
      EntryIsRead(c, key, first, rest, src, at);
      DecodeOfEncode(c, entries[0].value, depth, src, inner);
      var entry := Entry(key, Normal(c, entries[0].value));
      KeyIsDone(done, entries, entry);
      CarriedIsCovered(src, inner, first);
      DecodeOneEntry(c, src, |entries|, at, depth, done, key, inner, entry.value, inner.Past(first));
      DecodeEntriesOfEncode(c, entries[1..], depth, src, inner.Past(first), done + [entry]);
      AppendNormal(c, entries, done);
    }
  }

  // ---- the frame around the streams

  /** Bit `bit` of a type, counted from the high end of three. */
  predicate KindBit(kind: byte, bit: nat) {
    if bit == 0 then kind % 8 >= 4 else if bit == 1 then kind % 4 >= 2 else kind % 2 >= 1
  }

  function KindBits(types: seq<byte>): (bits: seq<bool>)
    ensures |bits| == 3 * |types|
  {
    seq(3 * |types|, p requires 0 <= p < 3 * |types| => KindBit(types[p / 3], p % 3))
  }

  function PackTypes(types: seq<byte>): seq<byte> {
    Bits.Pack(KindBits(types))
  }

  function KindFromBits(bytes: seq<byte>, index: nat): byte {
    (if Bits.BitAt(bytes, 3 * index) then 4 else 0) + (if Bits.BitAt(bytes, 3 * index + 1) then 2 else 0)
    + (if Bits.BitAt(bytes, 3 * index + 2) then 1 else 0)
  }

  /** As many types as fit; padding bits may read as further types. */
  function UnpackTypes(bytes: seq<byte>): seq<byte> {
    seq(8 * |bytes| / 3, i requires 0 <= i => KindFromBits(bytes, i))
  }

  lemma KindIsItsBits(kind: byte)
    requires kind < 8
    ensures kind == (if KindBit(kind, 0) then 4 else 0) + (if KindBit(kind, 1) then 2 else 0) + (if KindBit(kind, 2) then 1 else 0)
  {
  }

  lemma KindOfPackTypes(types: seq<byte>, i: nat)
    requires i < |types| && types[i] < 8
    ensures KindFromBits(PackTypes(types), i) == types[i]
  {
    hide Bits.BitAt, Bits.Pack, KindBit;
    forall j | 0 <= j < 3 ensures Bits.BitAt(PackTypes(types), 3 * i + j) == KindBit(types[i], j) {
      Bits.BitAtPack(KindBits(types), 3 * i + j);
      assert (3 * i + j) / 3 == i && (3 * i + j) % 3 == j;
    }
    assert Bits.BitAt(PackTypes(types), 3 * i + 0) == KindBit(types[i], 0);
    KindIsItsBits(types[i]);
  }

  lemma UnpackOfPackTypes(types: seq<byte>)
    requires forall i :: 0 <= i < |types| ==> types[i] < 8
    ensures HasAt(UnpackTypes(PackTypes(types)), 0, types)
  {
    hide KindFromBits;
    forall i | 0 <= i < |types| ensures UnpackTypes(PackTypes(types))[i] == types[i] {
      KindOfPackTypes(types, i);
    }
  }

  lemma UnpackOfPackBools(bools: seq<bool>)
    ensures HasAt(Bits.Unpack(Bits.Pack(bools), 8 * |Bits.Pack(bools)|), 0, bools)
  {
    var bytes := Bits.Pack(bools);
    forall p | 0 <= p < |bools| ensures Bits.Unpack(bytes, 8 * |bytes|)[p] == bools[p] {
      Bits.BitAtPack(bools, p);
    }
  }

  /** `encode` */
  function Encode(c: Coding, v: Value): Result<seq<byte>> {
    var s :- EncodeValue(c, v, 0);
    var bools, types := Bits.Pack(s.bools), PackTypes(s.types);
    Ok(Varint.Encode(|bools|) + Varint.Encode(|types|) + bools + types + s.payload)
  }

  /** `decode`: the payload cursor goes on in the same bytes behind the two packed streams. */
  function Decode(c: Coding, bytes: seq<byte>): Result<Value> {
    var boolLength :- Varint.Read(bytes, 0);
    var typeLength :- Varint.Read(bytes, boolLength.1);
    var bools :- ReadExactAt(bytes, typeLength.1, boolLength.0);
    var types :- ReadExactAt(bytes, typeLength.1 + boolLength.0, typeLength.0);
    var src := Source(Bits.Unpack(bools, 8 * |bools|), UnpackTypes(types), bytes);
    var v :- DecodeValue(c, src, Position(0, 0, typeLength.1 + boolLength.0 + typeLength.0), 0);
    Ok(v.0)
  }

  ghost predicate SmallTypes(s: Streams) {
    forall i :: 0 <= i < |s.types| ==> s.types[i] < 8
  }

  lemma {:induction false} ValueTypesAreSmall(c: Coding, v: Value, depth: nat)
    ensures EncodeValue(c, v, depth).Ok? ==> SmallTypes(EncodeValue(c, v, depth).value)
    decreases v, 0
  {
    match v
    case List(items) => ItemTypesAreSmall(c, items, depth + 1);
    case Map(entries) => EntryTypesAreSmall(c, entries, depth + 1);
    case _ =>
  }

  lemma {:induction false} ItemTypesAreSmall(c: Coding, items: seq<Value>, depth: nat)
    ensures EncodeItems(c, items, depth).Ok? ==> SmallTypes(EncodeItems(c, items, depth).value)
    decreases items, 1
  {
    if items != [] {
      ValueTypesAreSmall(c, items[0], depth);
      ItemTypesAreSmall(c, items[1..], depth);
    }
  }

  lemma {:induction false} EntryTypesAreSmall(c: Coding, entries: seq<Entry>, depth: nat)
    ensures EncodeEntries(c, entries, depth).Ok? ==> SmallTypes(EncodeEntries(c, entries, depth).value)
    decreases entries, 1
  {
    if entries != [] {
      ValueTypesAreSmall(c, entries[0].value, depth);
      EntryTypesAreSmall(c, entries[1..], depth);
    }
  }

  lemma Layout(first: seq<byte>, second: seq<byte>, bools: seq<byte>, types: seq<byte>, payload: seq<byte>, bytes: seq<byte>)
    requires bytes == first + second + bools + types + payload
    ensures HasAt(bytes, 0, first) && HasAt(bytes, |first|, second) && HasAt(bytes, |first| + |second|, bools)
    ensures HasAt(bytes, |first| + |second| + |bools|, types) && HasAt(bytes, |first| + |second| + |bools| + |types|, payload)
  {
    var a := first + second;
    var b := a + bools;
    var d := b + types;
    assert HasAt(bytes, 0, d + payload);
    hide HasAt;
    HasAtConcat(bytes, 0, d, payload);
    HasAtConcat(bytes, 0, b, types);
    HasAtConcat(bytes, 0, a, bools);
    HasAtConcat(bytes, 0, first, second);
  }

  /** The two lengths and the two packed streams are found where the decoder looks for them. */
  lemma FrameIsRead(bools: seq<byte>, types: seq<byte>, bytes: seq<byte>, at: nat)
    requires |bools| < U64_LIMIT && |types| < U64_LIMIT && at == |Varint.Encode(|bools|)| + |Varint.Encode(|types|)|
    requires HasAt(bytes, 0, Varint.Encode(|bools|)) && HasAt(bytes, |Varint.Encode(|bools|)|, Varint.Encode(|types|))
    requires HasAt(bytes, at, bools) && HasAt(bytes, at + |bools|, types)
    ensures at + |bools| + |types| <= |bytes|
    ensures Varint.Read(bytes, 0) == Ok((|bools|, |Varint.Encode(|bools|)|))
    ensures Varint.Read(bytes, |Varint.Encode(|bools|)|) == Ok((|types|, at))
    ensures ReadExactAt(bytes, at, |bools|) == Ok(bools)
    ensures ReadExactAt(bytes, at + |bools|, |types|) == Ok(types)
  {
    hide Varint.Read, Varint.Encode, HasAt, ReadExactAt;
    TakenWhole(bytes, at, bools);
    TakenWhole(bytes, at + |bools|, types);
    Varint.ReadOfEncode(bytes, 0, |bools|);
    Varint.ReadOfEncode(bytes, |Varint.Encode(|bools|)|, |types|);
  }

  lemma TakenWhole(bytes: seq<byte>, off: nat, piece: seq<byte>)
    requires HasAt(bytes, off, piece)
    ensures off + |piece| <= |bytes| && ReadExactAt(bytes, off, |piece|) == Ok(piece)
  {
  }

  /**
   * Every value of depth at most 500 with 32-bit integers comes back: structure, order of entries, strings and
   * booleans as they were, floats in single precision.
   */
  lemma RoundTrip(c: Coding, v: Value)
    requires c.Valid() && UniqueKeys(v) && Encode(c, v).Ok?
    requires 8 * |Encode(c, v).value| < U64_LIMIT
    ensures Decode(c, Encode(c, v).value) == Ok(Normal(c, v))
  {
    hide Varint.Read, Varint.Encode, EncodeValue, DecodeValue, Normal, HasAt, c.Valid();
    var s := EncodeValue(c, v, 0).value;
    var bools, types := Bits.Pack(s.bools), PackTypes(s.types);
    var bytes := Encode(c, v).value;
    Layout(Varint.Encode(|bools|), Varint.Encode(|types|), bools, types, s.payload, bytes);
    FrameIsRead(bools, types, bytes, |Varint.Encode(|bools|)| + |Varint.Encode(|types|)|);
    ValueTypesAreSmall(c, v, 0);
    UnpackOfPackBools(s.bools);
    UnpackOfPackTypes(s.types);
    var start := |Varint.Encode(|bools|)| + |Varint.Encode(|types|)| + |bools| + |types|;
    var src := Source(Bits.Unpack(bools, 8 * |bools|), UnpackTypes(types), bytes);
    DecodeOfEncode(c, v, 0, src, Position(0, 0, start));
  }

  // ---- which values encode, and which come back unchanged

  function Max(a: nat, b: nat): nat {
    if a > b then a else b
  }

  /** The number of values on the longest path from the root. */
  function Height(v: Value): nat
    decreases v
  {
    match v
    case List(items) => 1 + ItemsHeight(items)
    case Map(entries) => 1 + EntriesHeight(entries)
    case _ => 1
  }

  function ItemsHeight(items: seq<Value>): nat
    decreases items
  {
    if items == [] then 0 else Max(Height(items[0]), ItemsHeight(items[1..]))
  }

  function EntriesHeight(entries: seq<Entry>): nat
    decreases entries
  {
    if entries == [] then 0 else Max(Height(entries[0].value), EntriesHeight(entries[1..]))
  }

  /** All integers fit in 32 bits. */
  predicate SmallIntegers(v: Value)
    decreases v
  {
    match v
    case Int(n) => InI32(n)
    case List(items) => forall i :: 0 <= i < |items| ==> SmallIntegers(items[i])
    case Map(entries) => forall i :: 0 <= i < |entries| ==> SmallIntegers(entries[i].value)
    case _ => true
  }

  /** A value encodes if and only if it is nested at most 500 deep and its integers fit in 32 bits. */
  lemma {:induction false} EncodableValues(c: Coding, v: Value, depth: nat)
    ensures EncodeValue(c, v, depth).Ok? <==> depth + Height(v) <= MAX_DEPTH + 1 && SmallIntegers(v)
    decreases v, 0
  {
    hide Varint.Encode, StringBytes;
    match v
    case List(items) => EncodableItems(c, items, depth + 1);
    case Map(entries) => EncodableEntries(c, entries, depth + 1);
    case _ =>
  }

  lemma {:induction false} EncodableItems(c: Coding, items: seq<Value>, depth: nat)
    ensures EncodeItems(c, items, depth).Ok? <==>
            (items == [] || depth + ItemsHeight(items) <= MAX_DEPTH + 1) && forall i :: 0 <= i < |items| ==> SmallIntegers(items[i])
    decreases items, 1
  {
    hide EncodeValue, Height, SmallIntegers;
    if items != [] {
      EncodableValues(c, items[0], depth);
      EncodableItems(c, items[1..], depth);
      assert forall i :: 1 <= i < |items| ==> items[i] == items[1..][i - 1];
    }
  }

  lemma {:induction false} EncodableEntries(c: Coding, entries: seq<Entry>, depth: nat)
    ensures EncodeEntries(c, entries, depth).Ok? <==>
            (entries == [] || depth + EntriesHeight(entries) <= MAX_DEPTH + 1) && forall i :: 0 <= i < |entries| ==> SmallIntegers(entries[i].value)
    decreases entries, 1
  {
    hide EncodeValue, Height, SmallIntegers;
    if entries != [] {
      EncodableValues(c, entries[0].value, depth);
      EncodableEntries(c, entries[1..], depth);
      assert forall i :: 1 <= i < |entries| ==> entries[i] == entries[1..][i - 1];
    }
  }

  /** All floats are finite single-precision numbers. */
  predicate SingleFloats(c: Coding, v: Value)
    decreases v
  {
    match v
    case Float(d) => FloatValue(c, c.bits32(c.narrow(d))) == v
    case List(items) => forall i :: 0 <= i < |items| ==> SingleFloats(c, items[i])
    case Map(entries) => forall i :: 0 <= i < |entries| ==> SingleFloats(c, entries[i].value)
    case _ => true
  }

  /** A value comes back unchanged if and only if its floats survive single precision. */
  lemma {:induction false} NormalIsIdentity(c: Coding, v: Value)
    ensures Normal(c, v) == v <==> SingleFloats(c, v)
    decreases v, 0
  {
    match v
    case List(items) => NormalItemsIdentity(c, items);
    case Map(entries) => NormalEntriesIdentity(c, entries);
    case _ =>
  }

  lemma {:induction false} NormalItemsIdentity(c: Coding, items: seq<Value>)
    ensures NormalItems(c, items) == items <==> forall i :: 0 <= i < |items| ==> SingleFloats(c, items[i])
    decreases items, 1
  {
    hide Normal, SingleFloats;
    if items != [] {
      NormalIsIdentity(c, items[0]);
      NormalItemsIdentity(c, items[1..]);
      assert items == [items[0]] + items[1..];
      assert NormalItems(c, items)[1..] == NormalItems(c, items[1..]);
      assert forall i :: 1 <= i < |items| ==> items[i] == items[1..][i - 1];
    }
  }

  lemma {:induction false} NormalEntriesIdentity(c: Coding, entries: seq<Entry>)
    ensures NormalEntries(c, entries) == entries <==> forall i :: 0 <= i < |entries| ==> SingleFloats(c, entries[i].value)
    decreases entries, 1
  {
    hide Normal, SingleFloats;
    if entries != [] {
      NormalIsIdentity(c, entries[0].value);
      NormalEntriesIdentity(c, entries[1..]);
      assert entries == [entries[0]] + entries[1..];
      assert NormalEntries(c, entries)[1..] == NormalEntries(c, entries[1..]);
      assert forall i :: 1 <= i < |entries| ==> entries[i] == entries[1..][i - 1];
    }
  }

  /** An integer of 33 bits is refused. */
  lemma LargeIntegerIsRefused(c: Coding)
    ensures Encode(c, Int(0x8000_0000)) == Err(InvalidData)
  {
  }

  /** A list in a list, and so on `n` times. */
  function Nested(n: nat): Value {
    if n == 0 then List([]) else List([Nested(n - 1)])
  }

  lemma {:induction false} NestedHeight(n: nat)
    ensures Height(Nested(n)) == n + 1 && SmallIntegers(Nested(n))
  {
    if n > 0 {
      NestedHeight(n - 1);
      var items := [Nested(n - 1)];
      assert items[1..] == [] && ItemsHeight(items[1..]) == 0;
    }
  }

  /** Lists may be nested 500 times, and not once more. */
  lemma DeepNestingIsRefused(c: Coding)
    ensures Encode(c, Nested(MAX_DEPTH)).Ok? && Encode(c, Nested(MAX_DEPTH + 1)).Err?
  {
    hide EncodeValue, Nested;
    NestedHeight(MAX_DEPTH);
    NestedHeight(MAX_DEPTH + 1);
    EncodableValues(c, Nested(MAX_DEPTH), 0);
    EncodableValues(c, Nested(MAX_DEPTH + 1), 0);
  }

  /** A float that single precision maps to another one comes back as that, anywhere in a value. */
  lemma LossyFloatChanges(c: Coding, d: Schema.Float64, e: Schema.Float64)
    requires c.Valid() && c.widen(c.narrow(d)) == Some(e) && e != d
    ensures Normal(c, List([Float(d)])) == List([Float(e)]) && !SingleFloats(c, List([Float(d)]))
  {
    assert [Float(d)][1..] == [] && NormalItems(c, []) == [];
    assert NormalItems(c, [Float(d)]) == [Float(e)] + [];
    NormalIsIdentity(c, List([Float(d)]));
  }

  // ---- the streams of a value

  /** What each kind of value contributes: its number to the types, a truth value to the booleans, and the rest to the bytes. */
  lemma Contributions(c: Coding, v: Value, depth: nat)
    requires EncodeValue(c, v, depth).Ok?
    ensures var s := EncodeValue(c, v, depth).value;
            && |s.types| >= 1
            && match v
               case Null => s == Streams([], [0], [])
               case Bool(b) => s == Streams([b], [1], [])
               case Int(n) => s == Streams([], [2], Varint.Encode(if n >= 0 then 2 * n else -2 * n - 1))
               case Float(d) => s == Streams([], [3], c.bits32(c.narrow(d)))
               case Text(t) => s == Streams([], [4], Varint.Encode(|c.utf8(t)|) + c.utf8(t))
               case List(items) => s.types[0] == 5 && Varint.Encode(|items|) <= s.payload
               case Map(entries) => s.types[0] == 6 && Varint.Encode(|entries|) <= s.payload
  {
    hide Varint.Encode;
  }

  // ---- arbitrary bytes

  /** Whatever the streams, what is decoded is nested no deeper than the limit, and its integers have 32 bits. */
  lemma {:induction false} DecodedEncodes(c: Coding, src: Source, at: Position, depth: nat)
    requires src.Covers(at) && DecodeValue(c, src, at, depth).Ok?
    ensures depth + Height(DecodeValue(c, src, at, depth).value.0) <= MAX_DEPTH + 1 && SmallIntegers(DecodeValue(c, src, at, depth).value.0)
    decreases |src.types| - at.t, 0, 0
  {
    hide Varint.Read, ReadString, DecodeItems, DecodeEntries;
    var kind := src.types[at.t];
    var next := at.(t := at.t + 1);
    if kind == ARRAY {
      var count := Varint.Read(src.bytes, next.o).value;
      DecodedItemsEncode(c, src, count.0, next.(o := count.1), depth + 1);
    } else if kind == OBJECT {
      var count := Varint.Read(src.bytes, next.o).value;
      DecodedEntriesEncode(c, src, count.0, next.(o := count.1), depth + 1, []);
    }
  }

  lemma {:induction false} DecodedItemsEncode(c: Coding, src: Source, count: nat, at: Position, depth: nat)
    requires src.Covers(at) && DecodeItems(c, src, count, at, depth).Ok?
    ensures var items := DecodeItems(c, src, count, at, depth).value.0;
            (items == [] || depth + ItemsHeight(items) <= MAX_DEPTH + 1) && forall i :: 0 <= i < |items| ==> SmallIntegers(items[i])
    decreases |src.types| - at.t, 1, count
  {
    hide Height, SmallIntegers, DecodeValue;
    if count > 0 {
      DecodedEncodes(c, src, at, depth);
      DecodedItemsEncode(c, src, count - 1, DecodeValue(c, src, at, depth).value.1, depth);
      var items := DecodeItems(c, src, count, at, depth).value.0;
      assert items[1..] == DecodeItems(c, src, count - 1, DecodeValue(c, src, at, depth).value.1, depth).value.0;
    }
  }

  lemma {:induction false} InsertedHeight(entries: seq<Entry>, key: string, value: Value, limit: nat)
    requires (entries == [] || EntriesHeight(entries) <= limit) && Height(value) <= limit
    requires SmallIntegers(value) && forall i :: 0 <= i < |entries| ==> SmallIntegers(entries[i].value)
    ensures var all := Insert(entries, key, value); EntriesHeight(all) <= limit && forall i :: 0 <= i < |all| ==> SmallIntegers(all[i].value)
  {
    hide Height, SmallIntegers;
    if entries != [] && entries[0].key != key {
      InsertedHeight(entries[1..], key, value, limit);
    }
  }

  lemma {:induction false} DecodedEntriesEncode(c: Coding, src: Source, count: nat, at: Position, depth: nat, done: seq<Entry>)
    requires src.Covers(at) && DecodeEntries(c, src, count, at, depth, done).Ok?
    requires (done == [] || depth + EntriesHeight(done) <= MAX_DEPTH + 1) && forall i :: 0 <= i < |done| ==> SmallIntegers(done[i].value)
    ensures var entries := DecodeEntries(c, src, count, at, depth, done).value.0;
            (entries == [] || depth + EntriesHeight(entries) <= MAX_DEPTH + 1) && forall i :: 0 <= i < |entries| ==> SmallIntegers(entries[i].value)
    decreases |src.types| - at.t, 1, count
  {
    hide Height, SmallIntegers, DecodeValue, ReadString, Insert, EntriesHeight;
    if count > 0 {
      var key := ReadString(c, src.bytes, at.o).value;
      var first := DecodeValue(c, src, at.(o := key.1), depth).value;
      DecodedEncodes(c, src, at.(o := key.1), depth);
      if depth <= MAX_DEPTH + 1 {
        InsertedHeight(done, key.0, first.0, MAX_DEPTH + 1 - depth);
      }
      DecodedEntriesEncode(c, src, count - 1, first.1, depth, Insert(done, key.0, first.0));
    }
  }

  /** Whatever the streams: what the next type says of the value, and that there is none for other types or beyond the depth. */
  lemma DecodedKind(c: Coding, src: Source, at: Position, depth: nat)
    requires src.Covers(at) && at.t < |src.types|
    ensures var r, kind := DecodeValue(c, src, at, depth), src.types[at.t];
            && (depth > 500 || kind > 6 ==> r == Err(InvalidData))
            && (depth <= 500 && kind == 0 ==> r == Ok((Null, Position(at.t + 1, at.b, at.o))))
            && (depth <= 500 && kind == 1 ==>
                  r == if at.b < |src.bools| then Ok((Bool(src.bools[at.b]), Position(at.t + 1, at.b + 1, at.o))) else Err(InvalidData))
            && (r.Ok? && kind == 2 ==> r.value.0.Int? && InI32(r.value.0.n))
            && (r.Ok? && kind == 3 ==> r.value.0.Null? || (r.value.0.Float? && exists f :: c.widen(f) == Some(r.value.0.d)))
            && (r.Ok? && kind == 4 ==> r.value.0.Text?)
            && (r.Ok? && kind == 5 ==> r.value.0.List?)
            && (r.Ok? && kind == 6 ==> r.value.0.Map?)
  {
    hide Varint.Read, ReadString, DecodeItems, DecodeEntries;
  }
}
