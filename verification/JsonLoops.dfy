/** The three growing streams and the three moving cursors of the JSON codec, proved against `Json`. */
module JsonLoops {
  import opened Primitives
  import opened Integers
  import opened Json
  import Bits
  import Varint

  /** The three vectors that `encode_value` pushes to. */
  class Writer {
    var booleans: seq<bool>
    var types: seq<byte>
    var payload: seq<byte>

    constructor ()
      ensures Written() == NOTHING
    {
      booleans, types, payload := [], [], [];
    }

    ghost function Written(): Streams
      reads this
    {
      Streams(booleans, types, payload)
    }

    method WriteVarint(value: nat)
      modifies this`payload
      ensures payload == old(payload) + Varint.Encode(value)
    {
      var bytes := Varint.EncodeLoop(value);
      payload := payload + bytes;
    }

    method WriteString(c: Coding, s: string)
      modifies this`payload
      ensures payload == old(payload) + StringBytes(c, s)
    {
      ghost var before := payload;
      WriteVarint(|c.utf8(s)|);
      payload := payload + c.utf8(s);
      assert (before + Varint.Encode(|c.utf8(s)|)) + c.utf8(s) == before + StringBytes(c, s);
    }

    /** `encode_value`: whatever is already written stays in front. */
    method EncodeValueInto(c: Coding, v: Value, depth: nat) returns (r: Result<()>)
      modifies this
      ensures match EncodeValue(c, v, depth)
              case Ok(s) => r == Ok(()) && Written() == old(Written()).Then(s)
              case Err(e) => r == Err(e)
      decreases v, 0
    {
      hide Varint.Encode, StringBytes;
      if depth > MAX_DEPTH {
        return Err(InvalidData);
      }
      match v {
      case Null => types := types + [NULL];
      case Bool(b) =>
        types := types + [BOOL];
        booleans := booleans + [b];
      case Int(n) =>
        if !InI32(n) {
          return Err(InvalidData);
        }
        types := types + [INT];
        WriteVarint(ZigzagEncode(n));
      case Float(d) =>
        types := types + [FLOAT];
        payload := payload + c.bits32(c.narrow(d));
      case Text(s) =>
        types := types + [STRING];
        WriteString(c, s);
      case List(items) =>
        types := types + [ARRAY];
        WriteVarint(|items|);
        ghost var head := Written();
        assert head == old(Written()).Then(OfType(ARRAY, Varint.Encode(|items|)));
        var written :- EncodeItemsInto(c, items, depth + 1);
        ThenIsAssociative(old(Written()), OfType(ARRAY, Varint.Encode(|items|)), EncodeItems(c, items, depth + 1).value);
      case Map(entries) =>
        types := types + [OBJECT];
        WriteVarint(|entries|);
        assert Written() == old(Written()).Then(OfType(OBJECT, Varint.Encode(|entries|)));
        var written :- EncodeEntriesInto(c, entries, depth + 1);
        ThenIsAssociative(old(Written()), OfType(OBJECT, Varint.Encode(|entries|)), EncodeEntries(c, entries, depth + 1).value);
      }
      return Ok(());
    }

    method EncodeItemsInto(c: Coding, items: seq<Value>, depth: nat) returns (r: Result<()>)
      modifies this
      ensures match EncodeItems(c, items, depth)
              case Ok(s) => r == Ok(()) && Written() == old(Written()).Then(s)
              case Err(e) => r == Err(e)
      decreases items, 1
    {
      hide EncodeValue;
      assert items[0..] == items;
      for i := 0 to |items|
        invariant Continues(EncodeItems(c, items, depth), old(Written()), Written(), EncodeItems(c, items[i..], depth))
      {
        assert items[i..][1..] == items[i + 1..];
        ghost var before := Written();
        var written :- EncodeValueInto(c, items[i], depth);
        ghost var rest := EncodeItems(c, items[i + 1..], depth);
        if rest.Ok? {
          ThenIsAssociative(before, EncodeValue(c, items[i], depth).value, rest.value);
        }
      }
      return Ok(());
    }

    method EncodeEntriesInto(c: Coding, entries: seq<Entry>, depth: nat) returns (r: Result<()>)
      modifies this
      ensures match EncodeEntries(c, entries, depth)
              case Ok(s) => r == Ok(()) && Written() == old(Written()).Then(s)
              case Err(e) => r == Err(e)
      decreases entries, 1
    {
      hide EncodeValue, StringBytes;
      assert entries[0..] == entries;
      for i := 0 to |entries|
        invariant Continues(EncodeEntries(c, entries, depth), old(Written()), Written(), EncodeEntries(c, entries[i..], depth))
      {
        assert entries[i..][1..] == entries[i + 1..];
        ghost var before := Written();
        ghost var head := Streams([], [], StringBytes(c, entries[i].key));
        WriteString(c, entries[i].key);
        assert Written() == before.Then(head);
        var written :- EncodeValueInto(c, entries[i].value, depth);
        ghost var first, rest := EncodeValue(c, entries[i].value, depth).value, EncodeEntries(c, entries[i + 1..], depth);
        if rest.Ok? {
          ThenIsAssociative(before.Then(head), first, rest.value);
          ThenIsAssociative(before, head, first.Then(rest.value));
        }
      }
      return Ok(());
    }
  }

  /** With `now` written, what is left to write completes `whole` behind `start`. */
  ghost predicate Continues(whole: Result<Streams>, start: Streams, now: Streams, rest: Result<Streams>) {
    match rest
    case Ok(s) => whole.Ok? && start.Then(whole.value) == now.Then(s)
    case Err(e) => whole == Err(e)
  }

  lemma ThenIsAssociative(a: Streams, b: Streams, c: Streams)
    ensures a.Then(b).Then(c) == a.Then(b.Then(c))
  {
    assert (a.bools + b.bools) + c.bools == a.bools + (b.bools + c.bools);
    assert (a.types + b.types) + c.types == a.types + (b.types + c.types);
    assert (a.payload + b.payload) + c.payload == a.payload + (b.payload + c.payload);
  }

  /** `DecodeState`: two unpacked streams and a byte cursor. */
  class Decoder {
    const src: Source
    var typeIndex: nat
    var boolIndex: nat
    var offset: nat

    ghost predicate Valid()
      reads this
    {
      src.Covers(At())
    }

    function At(): Position
      reads this
    {
      Position(typeIndex, boolIndex, offset)
    }

    constructor (src: Source, offset: nat)
      requires offset <= |src.bytes|
      ensures Valid() && this.src == src && At() == Position(0, 0, offset)
    {
      this.src, this.typeIndex, this.boolIndex, this.offset := src, 0, 0, offset;
    }

    method TakeVarint() returns (r: Result<nat>)
      requires Valid()
      modifies this`offset
      ensures Valid()
      ensures match Varint.Read(src.bytes, old(offset))
              case Ok((n, next)) => r == Ok(n) && offset == next
              case Err(e) => r == Err(e) && offset == old(offset)
    {
      hide Varint.Read;
      var reader := new Reader(src.bytes);
      reader.offset := offset;
      var n :- Varint.Decode(reader);
      offset := reader.offset;
      return Ok(n);
    }

    method TakeString(c: Coding) returns (r: Result<string>)
      requires Valid()
      modifies this`offset
      ensures Valid()
      ensures match ReadString(c, src.bytes, old(offset))
              case Ok((s, next)) => r == Ok(s) && offset == next
              case Err(e) => r == Err(e)
    {
      hide Varint.Read;
      var length :- TakeVarint();
      var text :- ReadExactAt(src.bytes, offset, length);
      offset := offset + length;
      var s := c.fromUtf8(text);
      return if s.Some? then Ok(s.value) else Err(InvalidData);
    }

    /** `decode_value`: it ends on every input, because each call takes one entry of the type stream. */
    method DecodeNext(c: Coding, depth: nat) returns (r: Result<Value>)
      requires Valid()
      modifies this
      ensures Valid()
      ensures match DecodeValue(c, src, old(At()), depth)
              case Ok((v, next)) => r == Ok(v) && At() == next
              case Err(e) => r == Err(e)
      decreases |src.types| - typeIndex, 0
    {
      hide Varint.Read, ReadString, FloatValue;
      if depth > MAX_DEPTH || typeIndex == |src.types| {
        return Err(InvalidData);
      }
      var kind := src.types[typeIndex];
      typeIndex := typeIndex + 1;
      if kind == NULL {
        return Ok(Null);
      } else if kind == BOOL {
        if boolIndex == |src.bools| {
          return Err(InvalidData);
        }
        var value := src.bools[boolIndex];
        boolIndex := boolIndex + 1;
        return Ok(Bool(value));
      } else if kind == INT {
        var n :- TakeVarint();
        return Ok(Int(ZigzagDecode(n)));
      } else if kind == FLOAT {
        var raw :- ReadExactAt(src.bytes, offset, 4);
        offset := offset + 4;
        return Ok(FloatValue(c, raw));
      } else if kind == STRING {
        var s :- TakeString(c);
        return Ok(Text(s));
      } else if kind == ARRAY {
        var count :- TakeVarint();
        var items :- DecodeItemsNext(c, count, depth + 1);
        return Ok(List(items));
      } else if kind == OBJECT {
        var count :- TakeVarint();
        var entries :- DecodeEntriesNext(c, count, depth + 1);
        return Ok(Map(entries));
      }
      return Err(InvalidData);
    }

    method DecodeItemsNext(c: Coding, count: nat, depth: nat) returns (r: Result<seq<Value>>)
      requires Valid()
      modifies this
      ensures Valid()
      ensures match DecodeItems(c, src, count, old(At()), depth)
              case Ok((items, next)) => r == Ok(items) && At() == next
              case Err(e) => r == Err(e)
      decreases |src.types| - typeIndex, 1
    {
      hide DecodeValue;
      var items: seq<Value> := [];
      ghost var whole := DecodeItems(c, src, count, At(), depth);
      assert whole.Ok? ==> [] + whole.value.0 == whole.value.0;
      for i := 0 to count
        invariant Valid() && typeIndex >= old(typeIndex)
        invariant match DecodeItems(c, src, count - i, At(), depth)
                  case Ok((rest, next)) => whole == Ok((items + rest, next))
                  case Err(e) => whole == Err(e)
      {
        ghost var at := At();
        var item :- DecodeNext(c, depth);
        ghost var rest := DecodeItems(c, src, count - i - 1, At(), depth);
        assert rest.Ok? ==> items + ([item] + rest.value.0) == (items + [item]) + rest.value.0;
        items := items + [item];
      }
      assert items + [] == items;
      return Ok(items);
    }

    method DecodeEntriesNext(c: Coding, count: nat, depth: nat) returns (r: Result<seq<Entry>>)
      requires Valid()
      modifies this
      ensures Valid()
      ensures match DecodeEntries(c, src, count, old(At()), depth, [])
              case Ok((entries, next)) => r == Ok(entries) && At() == next
              case Err(e) => r == Err(e)
      decreases |src.types| - typeIndex, 1
    {
      hide DecodeValue, ReadString, Insert;
      var done: seq<Entry> := [];
      ghost var whole := DecodeEntries(c, src, count, At(), depth, []);
      for i := 0 to count
        invariant Valid() && typeIndex >= old(typeIndex)
        invariant whole == DecodeEntries(c, src, count - i, At(), depth, done)
      {
        var key :- TakeString(c);
        var value :- DecodeNext(c, depth);
        done := Insert(done, key, value);
      }
      return Ok(done);
    }
  }

  /** `pack_types`: three bits a type, set one by one in a row of zero bytes. */
  method PackTypesLoop(types: seq<byte>) returns (output: array<byte>)
    ensures fresh(output) && output[..] == PackTypes(types)
  {
    hide Bits.ByteAt, Bits.OrBit, KindBit;
    output := new byte[CeilDiv(3 * |types|, 8)](_ => 0);
    ghost var bits := KindBits(types);
    forall k | 0 <= k < output.Length ensures Bits.ByteAt(bits[..0], 8 * k) == 0 {
      Bits.NoBitsYet(bits[..0], 8 * k);
    }
    for index := 0 to |types|
      invariant forall k :: 0 <= k < output.Length ==> output[k] == Bits.ByteAt(bits[..3 * index], 8 * k)
    {
      for bit := 0 to 3
        invariant forall k :: 0 <= k < output.Length ==> output[k] == Bits.ByteAt(bits[..3 * index + bit], 8 * k)
      {
        var position := index * 3 + bit;
        assert position / 3 == index && position % 3 == bit;
        assert bits[position] == KindBit(types[index], bit);
        forall k | 0 <= k < output.Length
          ensures Bits.ByteAt(bits[..position + 1], 8 * k)
               == if bits[position] && k == position / 8 then Bits.OrBit(output[k], position % 8) else output[k]
        {
          Bits.NextBit(bits, position, k);
        }
        if KindBit(types[index], bit) {
          output[position / 8] := Bits.OrBit(output[position / 8], position % 8);
        }
      }
    }
    assert bits[..3 * |types|] == bits;
  }

  /** `encode` */
  method EncodeLoop(c: Coding, v: Value) returns (r: Result<seq<byte>>)
    ensures r == Encode(c, v)
  {
    hide EncodeValue, Varint.Encode;
    var writer := new Writer();
    ghost var s := EncodeValue(c, v, 0);
    assert s.Ok? ==> NOTHING.Then(s.value) == s.value;
    var written :- writer.EncodeValueInto(c, v, 0);
    var bools := Bits.Pack(writer.booleans);
    var packed := PackTypesLoop(writer.types);
    var types := packed[..];
    var boolLength := Varint.EncodeLoop(|bools|);
    var typeLength := Varint.EncodeLoop(|types|);
    return Ok(boolLength + typeLength + bools + types + writer.payload);
  }

  /** `decode` */
  method DecodeLoop(c: Coding, bytes: seq<byte>) returns (r: Result<Value>)
    ensures r == Decode(c, bytes)
  {
    hide DecodeValue, Varint.Read;
    var reader := new Reader(bytes);
    var boolLength :- Varint.Decode(reader);
    var typeLength :- Varint.Decode(reader);
    var bools :- reader.ReadExact(boolLength);
    var types :- reader.ReadExact(typeLength);
    var decoder := new Decoder(Source(Bits.Unpack(bools, 8 * |bools|), UnpackTypes(types), bytes), reader.offset);
    r := decoder.DecodeNext(c, 0);
  }
}
