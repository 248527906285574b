/** The registry object and the loops that write and read its table. */
module RegistryObjects {
  import opened Primitives
  import opened Schema
  import opened Registry
  import opened RegistryProofs
  import Varint

  /** The one-byte key of a tag: its place in the table, from 1. */
  function KeyIn<M>(packets: seq<Packet<M>>, tag: string): (r: Option<nat>)
    ensures r.Some? ==> 1 <= r.value <= |packets| && packets[r.value - 1].tag == tag
    ensures r.None? ==> forall i :: 0 <= i < |packets| ==> packets[i].tag != tag
  {
    if packets == [] then None
    else if packets[|packets| - 1].tag == tag then Some(|packets|)
    else KeyIn(packets[..|packets| - 1], tag)
  }

  /** The tags are those of the packets, each with its key. */
  predicate Keyed<M>(packets: seq<Packet<M>>, tags: map<string, byte>) {
    && (forall i :: 0 <= i < |packets| ==> packets[i].tag in tags && tags[packets[i].tag] == i + 1)
    && (forall tag :: tag in tags ==> 1 <= tags[tag] <= |packets| && packets[tags[tag] - 1].tag == tag)
  }

  lemma KeyedMore<M>(packets: seq<Packet<M>>, tags: map<string, byte>, packet: Packet<M>)
    requires Registrable(packets) && Keyed(packets, tags)
    ensures Registrable(packets + [packet]) <==> |packets| < 255 && packet.tag !in tags
    ensures Registrable(packets + [packet]) ==> Keyed(packets + [packet], tags[packet.tag := |packets| + 1])
  {
    OneMore(packets, packet);
    if packet.tag in tags {
      assert packets[tags[packet.tag] - 1].tag == packet.tag;
    }
  }

  /** The map of tags gives the place in the table. */
  lemma LookupIsKey<M>(packets: seq<Packet<M>>, tags: map<string, byte>, tag: string)
    requires Registrable(packets) && Keyed(packets, tags)
    ensures KeyIn(packets, tag) == if tag in tags then Some(tags[tag]) else None
  {
    if tag in tags {
      assert packets[tags[tag] - 1].tag == tag;
    }
  }

  class PacketRegistry<M(!new)> {
    var packets: seq<Packet<M>>
    var tags: map<string, byte>

    ghost predicate Valid()
      reads this
    {
      Registrable(packets) && Keyed(packets, tags)
    }

    constructor ()
      ensures Valid() && packets == []
    {
      packets, tags := [], map[];
    }

    /** `push`: refused when the table is full or the tag taken, and the key is the new length. */
    method Push(packet: Packet<M>) returns (r: Outcome<byte>)
      requires Valid()
      modifies this
      ensures Valid()
      ensures r.Done? <==> Registrable(old(packets) + [packet])
      ensures packets == if r.Done? then old(packets) + [packet] else old(packets)
      ensures r.Done? ==> r.value == |packets|
      ensures r.Failed? ==> r == Failed(SchemaError)
    {
      KeyedMore(packets, tags, packet);
      assert |packets| <= 255;
      hide Registrable, Keyed;
      if |packets| >= 255 {
        return Failed(SchemaError);
      }
      if packet.tag in tags {
        return Failed(SchemaError);
      }
      var key: byte := |packets| + 1;
      tags := tags[packet.tag := key];
      packets := packets + [packet];
      return Done(key);
    }

    /** `new`: pushes one packet after the other. */
    method PushAll(all: seq<Packet<M>>) returns (r: Outcome<()>)
      requires Valid() && packets == []
      modifies this
      ensures Valid()
      ensures r == if Registrable(all) then Done(()) else Failed(SchemaError)
      ensures r.Done? ==> packets == all
    {
      for i := 0 to |all|
        invariant Valid() && packets == all[..i]
      {
        assert all[..i + 1] == all[..i] + [all[i]];
        var pushed := Push(all[i]);
        if pushed.Failed? {
          RefusedForGood(all, i + 1);
          return Failed(SchemaError);
        }
      }
      assert all[..|all|] == all;
      return Done(());
    }

    /** `key` and `by_tag` agree with the order of the table. */
    method ByTag(tag: string) returns (key: Option<byte>, packet: Option<Packet<M>>)
      requires Valid()
      ensures key == KeyIn(packets, tag)
      ensures packet == match key case Some(k) => Some(packets[k - 1]) case None => None
    {
      LookupIsKey(packets, tags, tag);
      if tag !in tags {
        return None, None;
      }
      return Some(tags[tag]), Some(packets[tags[tag] - 1]);
    }

    method SerializeTable(texts: Texts<M>) returns (r: Outcome<seq<byte>>)
      requires Valid()
      ensures r == Serialize(texts, packets)
    {
      hide AppendPacket;
      var output: seq<byte> := [];
      assert packets[0..] == packets;
      for i := 0 to |packets|
        invariant AppendPackets(texts, output, packets[i..]) == Serialize(texts, packets)
      {
        assert packets[i..][1..] == packets[i + 1..];
        output :- WritePacket(texts, output, packets[i]);
      }
      return Done(output);
    }

    /** Reads records until the bytes end, then registers them. */
    method DeserializeTable(texts: Texts<M>, bytes: seq<byte>) returns (r: Outcome<()>)
      requires Valid() && packets == []
      modifies this
      ensures Valid()
      ensures match Deserialize(texts, bytes)
              case Done(all) => r == Done(()) && packets == all
              case Failed(why) => r == Failed(why)
    {
      hide PacketAt;
      var cursor := new Reader(bytes);
      var all: seq<Packet<M>> := [];
      ghost var whole := PacketsAt(texts, bytes, 0);
      assert forall tail: seq<Packet<M>> :: [] + tail == tail;
      while !cursor.IsEmpty()
        invariant cursor.Valid() && cursor.bytes == bytes && fresh(cursor)
        invariant whole == Behind(all, PacketsAt(texts, bytes, cursor.offset))
        invariant packets == [] && Valid()
        decreases |bytes| - cursor.offset
      {
        ghost var off := cursor.offset;
        var packet :- ReadPacket(texts, cursor);
        BehindBehind(all, [packet], PacketsAt(texts, bytes, cursor.offset));
        all := all + [packet];
      }
      assert all + [] == all;
      r := PushAll(all);
    }
  }

  lemma RefusedForGood<M>(all: seq<Packet<M>>, n: nat)
    requires n <= |all| && !Registrable(all[..n])
    ensures !Registrable(all)
  {
  }

  lemma OneMore<M>(packets: seq<Packet<M>>, packet: Packet<M>)
    requires Registrable(packets)
    ensures Registrable(packets + [packet])
       <==> |packets| < 255 && forall i :: 0 <= i < |packets| ==> packets[i].tag != packet.tag
  {
    if Registrable(packets + [packet]) {
      forall i | 0 <= i < |packets| ensures packets[i].tag != packet.tag {
        assert (packets + [packet])[i].tag != (packets + [packet])[|packets|].tag;
      }
    }
  }

  /** After a handshake both sides use the same keys. */
  lemma KeysSurvive<M(!new)>(texts: Texts<M>, packets: seq<Packet<M>>, tag: string)
    requires texts.Valid() && Registrable(packets) && Transmissible(texts, packets)
    requires PlainTable(texts, packets) && Serialize(texts, packets).Done?
    ensures var received := Deserialize(texts, Serialize(texts, packets).value);
            received.Done? && KeyIn(received.value, tag) == KeyIn(packets, tag)
  {
    hide Serialize, Deserialize, PlainTable, Transmissible, Texts.Valid;
    RegistryRoundTrip(texts, packets);
    SameTagsSameKeys(RestoredAll(packets), packets, tag);
  }

  lemma {:induction false} SameTagsSameKeys<M>(a: seq<Packet<M>>, b: seq<Packet<M>>, tag: string)
    requires |a| == |b| && forall i :: 0 <= i < |a| ==> a[i].tag == b[i].tag
    ensures KeyIn(a, tag) == KeyIn(b, tag)
    decreases |a|
  {
    if a != [] {
      SameTagsSameKeys(a[..|a| - 1], b[..|b| - 1], tag);
    }
  }

  // ---- writing

  function Behind<T>(done: seq<T>, rest: Outcome<seq<T>>): Outcome<seq<T>> {
    if rest.Done? then Done(done + rest.value) else rest
  }

  lemma BehindBehind<T>(a: seq<T>, b: seq<T>, rest: Outcome<seq<T>>)
    ensures Behind(a, Behind(b, rest)) == Behind(a + b, rest)
  {
    if rest.Done? {
      assert a + (b + rest.value) == a + b + rest.value;
    }
  }

  method WriteEnum<M(!new)>(texts: Texts<M>, out: seq<byte>, package: EnumPackage) returns (r: Outcome<seq<byte>>)
    ensures r == AppendEnum(texts, out, package)
  {
    hide AppendEnumValue, Latin1Record;
    var name :- Latin1Record(package.name);
    if |package.values| > 255 {
      return Failed(SchemaError);
    }
    var output: seq<byte> := out + name + [|package.values|];
    assert package.values[0..] == package.values;
    for i := 0 to |package.values|
      invariant AppendEnumValues(texts, output, package.values[i..]) == AppendEnum(texts, out, package)
    {
      assert package.values[i..][1..] == package.values[i + 1..];
      output :- AppendEnumValue(texts, output, package.values[i]);
    }
    return Done(output);
  }

  method WriteVarints(out: seq<byte>, values: seq<u64>) returns (output: seq<byte>)
    ensures output == out + Varint.EncodeAll(values)
  {
    hide Varint.Encode;
    output := out;
    assert values[0..] == values;
    for i := 0 to |values|
      invariant output + Varint.EncodeAll(values[i..]) == out + Varint.EncodeAll(values)
    {
      assert values[i..][1..] == values[i + 1..];
      var bytes := Varint.EncodeLoop(values[i]);
      assert output + (bytes + Varint.EncodeAll(values[i + 1..])) == output + bytes + Varint.EncodeAll(values[i + 1..]);
      output := output + bytes;
    }
    assert output + [] == output;
  }

  method WritePacket<M(!new)>(texts: Texts<M>, out: seq<byte>, packet: Packet<M>) returns (r: Outcome<seq<byte>>)
    ensures r == AppendPacket(texts, out, packet)
  {
    hide AppendEnum, Head, Varint.EncodeAll, Varint.Encode, Flags;
    var output := out;
    var head :- WriteHead(texts, packet);
    output := output + head;
    var packages := packet.definition.enumData;
    assert packages[0..] == packages;
    for i := 0 to |packages|
      invariant AppendEnums(texts, output, packages[i..]) == AppendEnums(texts, out + head, packages)
    {
      assert packages[i..][1..] == packages[i + 1..];
      output :- WriteEnum(texts, output, packages[i]);
    }
    var tail :- WriteTail(packet.definition);
    return Done(output + tail);
  }

  method WriteHead<M(!new)>(texts: Texts<M>, packet: Packet<M>) returns (r: Outcome<seq<byte>>)
    ensures r == Head(texts, packet)
  {
    hide Latin1Record, Varint.Encode;
    var tag :- Latin1Record(packet.tag);
    var flags: seq<bool> := [packet.dontSpread, false, packet.isObject, packet.autoFlatten, packet.definition.gzipCompression, packet.rereference];
    var folded, weight := 0, 0x80;
    for i := 0 to 6
      invariant weight == [0x80, 0x40, 0x20, 0x10, 0x08, 0x04, 0x02][i]
      invariant folded == (if i > 0 then Bit(flags[0], 0x80) else 0) + (if i > 2 then Bit(flags[2], 0x20) else 0)
                          + (if i > 3 then Bit(flags[3], 0x10) else 0) + (if i > 4 then Bit(flags[4], 0x08) else 0)
                          + (if i > 5 then Bit(flags[5], 0x04) else 0)
    {
      folded := folded + Bit(flags[i], weight);
      weight := weight / 2;
    }
    var metadata :- texts.write(packet.metadata);
    var length := Varint.EncodeLoop(|metadata|);
    if !(0 <= packet.definition.dataBatching < 256) {
      return Failed(SchemaError);
    }
    if |packet.definition.enumData| > 255 {
      return Failed(SchemaError);
    }
    return Done(tag + ([folded] + (length + (metadata + [packet.definition.dataBatching, |packet.definition.enumData|]))));
  }

  method WriteTail(definition: PacketDef) returns (r: Outcome<seq<byte>>)
    ensures r == Tail(definition)
  {
    hide Varint.EncodeAll, Varint.Encode;
    match (definition.packetType, definition.dataMax, definition.dataMin) {
      case (SingleType(kind), SingleLimit(max), SingleLimit(min)) =>
        var maxBytes := Varint.EncodeLoop(max);
        var minBytes := Varint.EncodeLoop(min);
        return Done(maxBytes + (minBytes + [TypeCode(kind)]));
      case (ObjectType(kinds), ObjectLimit(maxes), ObjectLimit(mins)) =>
        if |kinds| != |maxes| || |kinds| != |mins| || |kinds| > 255 {
          return Failed(SchemaError);
        }
        var output := WriteVarints([|kinds|], maxes);
        output := WriteVarints(output, mins);
        output := output + TypeCodes(kinds);
        assert output == [|kinds|] + (Varint.EncodeAll(maxes) + (Varint.EncodeAll(mins) + TypeCodes(kinds)));
        return Done(output);
      case _ =>
        return Failed(SchemaError);
    }
  }

  // ---- reading

  method Take(cursor: Reader, length: nat) returns (r: Outcome<seq<byte>>)
    requires cursor.Valid()
    modifies cursor
    ensures cursor.Valid()
    ensures match TakeAt(cursor.bytes, old(cursor.offset), length)
            case Done((bytes, next)) => r == Done(bytes) && cursor.offset == next
            case Failed(why) => r == Failed(why)
  {
    var taken := cursor.ReadExact(length);
    if taken.Err? {
      return Failed(ProtocolError);
    }
    return Done(taken.value);
  }

  method TakeByte(cursor: Reader) returns (r: Outcome<byte>)
    requires cursor.Valid()
    modifies cursor
    ensures cursor.Valid()
    ensures match ByteAt(cursor.bytes, old(cursor.offset))
            case Done((b, next)) => r == Done(b) && cursor.offset == next
            case Failed(why) => r == Failed(why)
  {
    var one :- Take(cursor, 1);
    return Done(one[0]);
  }

  method TakeVarint(cursor: Reader) returns (r: Outcome<u64>)
    requires cursor.Valid()
    modifies cursor
    ensures cursor.Valid()
    ensures match VarintAt(cursor.bytes, old(cursor.offset))
            case Done((value, next)) => r == Done(value) && cursor.offset == next
            case Failed(why) => r == Failed(why)
  {
    hide Varint.Read;
    var value := Varint.Decode(cursor);
    if value.Err? {
      return Failed(ProtocolError);
    }
    return Done(value.value);
  }

  method TakeLatin1(cursor: Reader) returns (r: Outcome<string>)
    requires cursor.Valid()
    modifies cursor
    ensures cursor.Valid()
    ensures match Latin1At(cursor.bytes, old(cursor.offset))
            case Done((text, next)) => r == Done(text) && cursor.offset == next
            case Failed(why) => r == Failed(why)
  {
    var length :- TakeByte(cursor);
    var bytes :- Take(cursor, length);
    return Done(Latin1(bytes));
  }

  method ReadEnumValue<M(!new)>(texts: Texts<M>, cursor: Reader) returns (r: Outcome<EnumValue>)
    requires cursor.Valid()
    modifies cursor
    ensures cursor.Valid()
    ensures match EnumValueAt(texts, cursor.bytes, old(cursor.offset))
            case Done((value, next)) => r == Done(value) && cursor.offset == next
            case Failed(why) => r == Failed(why)
  {
    hide Texts.Recognize, Latin1;
    var length :- TakeByte(cursor);
    var kind :- TakeByte(cursor);
    var text :- Take(cursor, length);
    var value :- texts.Recognize(kind, Latin1(text));
    return Done(value);
  }

  method ReadEnum<M(!new)>(texts: Texts<M>, cursor: Reader) returns (r: Outcome<EnumPackage>)
    requires cursor.Valid()
    modifies cursor
    ensures cursor.Valid()
    ensures match EnumAt(texts, cursor.bytes, old(cursor.offset))
            case Done((package, next)) => r == Done(package) && cursor.offset == next
            case Failed(why) => r == Failed(why)
  {
    hide Latin1At, EnumValueAt;
    var name :- TakeLatin1(cursor);
    var count :- TakeByte(cursor);
    var values: seq<EnumValue> := [];
    ghost var whole := EnumValuesAt(texts, cursor.bytes, cursor.offset, count);
    FollowsNothing(whole);
    for i := 0 to count
      invariant cursor.Valid()
      invariant whole == Follows(values, EnumValuesAt(texts, cursor.bytes, cursor.offset, count - i))
    {
      var value :- ReadEnumValue(texts, cursor);
      FollowsFollows(values, [value], EnumValuesAt(texts, cursor.bytes, cursor.offset, count - i - 1));
      values := values + [value];
    }
    assert values + [] == values;
    return Done(EnumPackage(name, values));
  }

  /** What was read, in front of what remains to be read. */
  function Follows<T>(done: seq<T>, rest: Outcome<(seq<T>, nat)>): Outcome<(seq<T>, nat)> {
    if rest.Done? then Done((done + rest.value.0, rest.value.1)) else rest
  }

  lemma FollowsNothing<T>(rest: Outcome<(seq<T>, nat)>)
    ensures Follows([], rest) == rest
  {
    if rest.Done? {
      assert [] + rest.value.0 == rest.value.0;
    }
  }

  lemma FollowsFollows<T>(a: seq<T>, b: seq<T>, rest: Outcome<(seq<T>, nat)>)
    ensures Follows(a, Follows(b, rest)) == Follows(a + b, rest)
  {
    if rest.Done? {
      assert a + (b + rest.value.0) == a + b + rest.value.0;
    }
  }

  method ReadVarints(cursor: Reader, count: nat) returns (r: Outcome<seq<u64>>)
    requires cursor.Valid()
    modifies cursor
    ensures cursor.Valid()
    ensures match VarintsAt(cursor.bytes, old(cursor.offset), count)
            case Done((values, next)) => r == Done(values) && cursor.offset == next
            case Failed(why) => r == Failed(why)
  {
    hide VarintAt;
    var values: seq<u64> := [];
    ghost var whole := VarintsAt(cursor.bytes, cursor.offset, count);
    FollowsNothing(whole);
    for i := 0 to count
      invariant cursor.Valid()
      invariant whole == Follows(values, VarintsAt(cursor.bytes, cursor.offset, count - i))
    {
      var value :- TakeVarint(cursor);
      FollowsFollows(values, [value], VarintsAt(cursor.bytes, cursor.offset, count - i - 1));
      values := values + [value];
    }
    assert values + [] == values;
    return Done(values);
  }

  method ReadTypes(cursor: Reader, count: nat) returns (r: Outcome<seq<PacketType>>)
    requires cursor.Valid()
    modifies cursor
    ensures cursor.Valid()
    ensures match TypesAt(cursor.bytes, old(cursor.offset), count)
            case Done((kinds, next)) => r == Done(kinds) && cursor.offset == next
            case Failed(why) => r == Failed(why)
  {
    hide TypeOf;
    var kinds: seq<PacketType> := [];
    ghost var whole := TypesAt(cursor.bytes, cursor.offset, count);
    FollowsNothing(whole);
    for i := 0 to count
      invariant cursor.Valid()
      invariant whole == Follows(kinds, TypesAt(cursor.bytes, cursor.offset, count - i))
    {
      var code :- TakeByte(cursor);
      var kind :- TypeOf(code);
      FollowsFollows(kinds, [kind], TypesAt(cursor.bytes, cursor.offset, count - i - 1));
      kinds := kinds + [kind];
    }
    assert kinds + [] == kinds;
    return Done(kinds);
  }

  method ReadHead<M(!new)>(texts: Texts<M>, cursor: Reader) returns (r: Outcome<Prefix<M>>)
    requires cursor.Valid()
    modifies cursor
    ensures cursor.Valid()
    ensures match HeadAt(texts, cursor.bytes, old(cursor.offset))
            case Done((prefix, next)) => r == Done(prefix) && cursor.offset == next
            case Failed(why) => r == Failed(why)
  {
    hide Latin1At, VarintAt;
    var tag :- TakeLatin1(cursor);
    var flags :- TakeByte(cursor);
    var length :- TakeVarint(cursor);
    var json :- Take(cursor, length);
    var metadata :- texts.read(json);
    var batching :- TakeByte(cursor);
    var enums :- TakeByte(cursor);
    return Done(Prefix(tag, flags, metadata, batching, enums));
  }

  method ReadTail(cursor: Reader, isObject: bool) returns (r: Outcome<Shape>)
    requires cursor.Valid()
    modifies cursor
    ensures cursor.Valid()
    ensures match TailAt(cursor.bytes, old(cursor.offset), isObject)
            case Done((shape, next)) => r == Done(shape) && cursor.offset == next
            case Failed(why) => r == Failed(why)
  {
    hide VarintAt, VarintsAt, TypesAt, TypeOf;
    if isObject {
      var count :- TakeByte(cursor);
      var maxes :- ReadVarints(cursor, count);
      var mins :- ReadVarints(cursor, count);
      var kinds :- ReadTypes(cursor, count);
      return Done(Shape(ObjectType(kinds), ObjectLimit(mins), ObjectLimit(maxes)));
    }
    var max :- TakeVarint(cursor);
    var min :- TakeVarint(cursor);
    var code :- TakeByte(cursor);
    var kind :- TypeOf(code);
    return Done(Shape(SingleType(kind), SingleLimit(min), SingleLimit(max)));
  }

  method ReadPacket<M(!new)>(texts: Texts<M>, cursor: Reader) returns (r: Outcome<Packet<M>>)
    requires cursor.Valid()
    modifies cursor
    ensures cursor.Valid()
    ensures match PacketAt(texts, cursor.bytes, old(cursor.offset))
            case Done((packet, next)) => r == Done(packet) && cursor.offset == next
            case Failed(why) => r == Failed(why)
  {
    hide HeadAt, TailAt, EnumAt, Has, Assemble;
    var head :- ReadHead(texts, cursor);
    var enums: seq<EnumPackage> := [];
    ghost var whole := EnumsAt(texts, cursor.bytes, cursor.offset, head.enums);
    FollowsNothing(whole);
    for i := 0 to head.enums
      invariant cursor.Valid()
      invariant whole == Follows(enums, EnumsAt(texts, cursor.bytes, cursor.offset, head.enums - i))
    {
      var package :- ReadEnum(texts, cursor);
      FollowsFollows(enums, [package], EnumsAt(texts, cursor.bytes, cursor.offset, head.enums - i - 1));
      enums := enums + [package];
    }
    assert enums + [] == enums;
    var shape :- ReadTail(cursor, Has(head.flags, 0x20));
    return Done(Assemble(head, enums, shape));
  }
}
