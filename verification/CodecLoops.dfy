/** The loops of the codec, each proved against the function that specifies it. */
module CodecLoops {
  import opened Primitives
  import opened Schema
  import opened Codec
  import Bits
  import Hex
  import Huffman
  import Strings
  import Varint

  lemma PrependNothing<T>(r: Result<seq<T>>)
    ensures Prepend([], r) == r
  {
    if r.Ok? {
      assert [] + r.value == r.value;
    }
  }

  method EncodeChunksLoop(p: Platform, kind: PacketType, vals: seq<SonicValue>) returns (r: Result<seq<byte>>)
    requires Width(kind) > 0
    ensures r == EncodeChunks(p, kind, vals)
  {
    hide ToChunk;
    var out: seq<byte> := [];
    PrependNothing(EncodeChunks(p, kind, vals));
    assert vals[0..] == vals;
    for i := 0 to |vals|
      invariant EncodeChunks(p, kind, vals) == Prepend(out, EncodeChunks(p, kind, vals[i..]))
    {
      assert vals[i..][1..] == vals[i + 1..];
      var chunk :- ToChunk(p, kind, vals[i]);
      PrependPrepend(out, chunk, EncodeChunks(p, kind, vals[i + 1..]));
      out := out + chunk;
    }
    assert out + [] == out;
    return Ok(out);
  }

  method EncodeVarintsLoop(kind: PacketType, vals: seq<SonicValue>) returns (r: Result<seq<byte>>)
    ensures r == EncodeVarints(kind, vals, 0)
  {
    hide ToVarint, Varint.Encode;
    var out: seq<byte>, prev: i64 := [], 0;
    PrependNothing(EncodeVarints(kind, vals, 0));
    assert vals[0..] == vals;
    for i := 0 to |vals|
      invariant EncodeVarints(kind, vals, 0) == Prepend(out, EncodeVarints(kind, vals[i..], prev))
    {
      assert vals[i..][1..] == vals[i + 1..];
      var here :- ToVarint(kind, vals[i], prev);
      var bytes := Varint.EncodeLoop(here.0);
      PrependPrepend(out, bytes, EncodeVarints(kind, vals[i + 1..], here.1));
      out := out + bytes;
      prev := here.1;
    }
    assert out + [] == out;
    return Ok(out);
  }

  method EncodeEnumsLoop(p: Platform, package: EnumPackage, vals: seq<SonicValue>) returns (r: Result<seq<byte>>)
    ensures r == EncodeEnums(p, package, vals)
  {
    var out: seq<byte> := [];
    PrependNothing(EncodeEnums(p, package, vals));
    assert vals[0..] == vals;
    for i := 0 to |vals|
      invariant EncodeEnums(p, package, vals) == Prepend(out, EncodeEnums(p, package, vals[i..]))
    {
      assert vals[i..][1..] == vals[i + 1..];
      var wanted :- p.EnumFromSonic(vals[i]);
      var index := p.Position(package.values, wanted);
      if index.None? {
        return Err(InvalidData);
      }
      PrependPrepend(out, [index.value % 256], EncodeEnums(p, package, vals[i + 1..]));
      out := out + [index.value % 256];
    }
    assert out + [] == out;
    return Ok(out);
  }

  /** `encode_type` */
  method EncodeTypeLoop(p: Platform, kind: PacketType, value: SonicValue, enums: Option<EnumPackage>) returns (r: Result<seq<byte>>)
    ensures r == EncodeType(p, kind, value, enums)
  {
    var vals := Items(value);
    match kind
    case NoneType =>
      return if value in {Undefined, Null, Array([])} then Ok([]) else Err(InvalidData);
    case Raw | Reserved16 =>
      return if value.Bytes? then Ok(value.bytes) else Err(InvalidData);
    case ByteType | UByteType | Shorts | UShorts | Floats | Doubles =>
      r := EncodeChunksLoop(p, kind, vals);
    case VarInt | UVarInt | Deltas =>
      r := EncodeVarintsLoop(kind, vals);
    case Booleans =>
      var bools :- ToBools(vals);
      return Ok(Bits.Pack(bools));
    case StringsAscii =>
      var texts :- ToStrings(vals);
      r := Strings.EncodeAsciiLoop(p.table, texts);
    case StringsUtf16 =>
      var texts :- ToStrings(vals);
      var out := Strings.EncodeCodepointsLoop(texts);
      return Ok(out);
    case Hex =>
      if !value.String? {
        return Err(InvalidData);
      }
      r := Hex.DecodeLoop(value.s);
    case Enums =>
      if enums.None? {
        return Err(InvalidData);
      }
      r := EncodeEnumsLoop(p, enums.value, vals);
  }

  /** `encode_packet`: the object branch frames every field with its length and uses up enum packages in order. */
  method EncodePacketLoop(p: Platform, packet: PacketDef, value: SonicValue) returns (r: Result<seq<byte>>)
    ensures r == EncodePacket(p, packet, value)
  {
    hide EncodeType, Varint.Encode;
    var out: seq<byte> := [];
    if packet.packetType.SingleType? {
      out :- EncodeTypeLoop(p, packet.packetType.kind, value, Get(packet.enumData, 0));
    } else {
      var kinds := packet.packetType.kinds;
      if !value.Array? || |value.items| != |kinds| {
        return Err(InvalidData);
      }
      var fields := value.items;
      var ei := 0;
      PrependNothing(EncodeFields(p, kinds, fields, packet.enumData, 0));
      assert kinds[0..] == kinds && fields[0..] == fields;
      for i := 0 to |kinds|
        invariant EncodeFields(p, kinds, fields, packet.enumData, 0) ==
                  Prepend(out, EncodeFields(p, kinds[i..], fields[i..], packet.enumData, ei))
      {
        assert kinds[i..][1..] == kinds[i + 1..] && fields[i..][1..] == fields[i + 1..];
        var package := PackageFor(kinds[i], packet.enumData, ei);
        ei := package.1;
        var data :- EncodeTypeLoop(p, kinds[i], fields[i], package.0);
        var length := Varint.EncodeLoop(|data|);
        PrependPrepend(out, length + data, EncodeFields(p, kinds[i + 1..], fields[i + 1..], packet.enumData, ei));
        out := out + (length + data);
      }
      assert out + [] == out;
    }
    return Ok(if Compressed(packet) then p.deflate.compress(out) else out);
  }

  method DecodeChunksLoop(p: Platform, kind: PacketType, bytes: seq<byte>) returns (vals: seq<SonicValue>)
    requires Width(kind) > 0
    ensures vals == DecodeChunks(p, kind, bytes)
  {
    hide FromChunk;
    vals := [];
    var off: nat := 0;
    assert bytes[0..] == bytes;
    while |bytes| - off >= Width(kind)
      invariant off <= |bytes|
      invariant DecodeChunks(p, kind, bytes) == vals + DecodeChunks(p, kind, bytes[off..])
    {
      assert bytes[off..][..Width(kind)] == bytes[off..off + Width(kind)];
      assert bytes[off..][Width(kind)..] == bytes[off + Width(kind)..];
      vals := vals + [FromChunk(p, kind, bytes[off..off + Width(kind)])];
      off := off + Width(kind);
    }
  }

  /** The branch for variable-length integers: one reader, one running `previous`. */
  method DecodeVarintsLoop(kind: PacketType, bytes: seq<byte>) returns (r: Result<seq<SonicValue>>)
    ensures r == DecodeVarints(kind, bytes, 0, 0)
  {
    hide FromVarint, Varint.Read;
    var reader := new Reader(bytes);
    var values: seq<SonicValue>, previous: i64 := [], 0;
    PrependNothing(DecodeVarints(kind, bytes, 0, 0));
    while !reader.IsEmpty()
      invariant reader.Valid() && reader.bytes == bytes
      invariant DecodeVarints(kind, bytes, 0, 0) == Prepend(values, DecodeVarints(kind, bytes, reader.offset, previous))
      decreases |bytes| - reader.offset
    {
      var n :- Varint.Decode(reader);
      var here := FromVarint(kind, n, previous);
      PrependPrepend(values, [here.0], DecodeVarints(kind, bytes, reader.offset, here.1));
      values := values + [here.0];
      previous := here.1;
    }
    assert values + [] == values;
    return Ok(values);
  }

  method DecodeEnumsLoop(package: EnumPackage, bytes: seq<byte>) returns (r: Result<seq<SonicValue>>)
    ensures r == DecodeEnums(package, bytes)
  {
    var values: seq<SonicValue> := [];
    PrependNothing(DecodeEnums(package, bytes));
    assert bytes[0..] == bytes;
    for i := 0 to |bytes|
      invariant DecodeEnums(package, bytes) == Prepend(values, DecodeEnums(package, bytes[i..]))
    {
      assert bytes[i..][1..] == bytes[i + 1..];
      if bytes[i] >= |package.values| {
        return Err(InvalidData);
      }
      PrependPrepend(values, [EnumToSonic(package.values[bytes[i]])], DecodeEnums(package, bytes[i + 1..]));
      values := values + [EnumToSonic(package.values[bytes[i]])];
    }
    assert values + [] == values;
    return Ok(values);
  }

  /** `decode_type` */
  method DecodeTypeLoop(p: Platform, kind: PacketType, bytes: seq<byte>, cap: u64, enums: Option<EnumPackage>) returns (r: Result<SonicValue>)
    requires p.Valid()
    ensures r == DecodeType(p, kind, bytes, cap, enums)
  {
    hide DecodeChunks, DecodeVarints, DecodeEnums, Strings.DecodeAscii, Strings.ReadStrings, Hex.Encode, Huffman.WellFormed;
    match kind
    case NoneType =>
      return if bytes == [] then Ok(Undefined) else Err(InvalidData);
    case Raw | Reserved16 =>
      return Ok(Bytes(bytes));
    case ByteType | UByteType | Shorts | UShorts | Floats | Doubles =>
      if |bytes| % Width(kind) != 0 {
        return Err(InvalidData);
      }
      var values := DecodeChunksLoop(p, kind, bytes);
      return Ok(Array(values));
    case VarInt | UVarInt | Deltas =>
      var values :- DecodeVarintsLoop(kind, bytes);
      return Ok(Array(values));
    case Booleans =>
      if !RoomFor(kind, cap) {
        return Err(Panic);
      }
      return Ok(Array(FromBools(Bits.Unpack(bytes, cap))));
    case StringsAscii =>
      var texts :- Strings.DecodeAsciiLoop(p.table, bytes);
      return Ok(Array(FromStrings(texts)));
    case StringsUtf16 =>
      var texts :- Strings.DecodeCodepointsLoop(bytes);
      return Ok(Array(FromStrings(texts)));
    case Hex =>
      return Ok(String(Hex.Encode(bytes)));
    case Enums =>
      if enums.None? {
        return Err(InvalidData);
      }
      var values :- DecodeEnumsLoop(enums.value, bytes);
      return Ok(Array(values));
  }

  /** Reads the length and the bytes of one object sector. */
  method TakeSector(reader: Reader) returns (r: Result<seq<byte>>)
    requires reader.Valid()
    modifies reader
    ensures reader.Valid()
    ensures match ReadSector(reader.bytes, old(reader.offset))
            case Ok((sector, next)) => r == Ok(sector) && reader.offset == next
            case Err(e) => r == Err(e)
  {
    hide Varint.Read;
    if reader.IsEmpty() {
      return Err(InvalidData);
    }
    var length :- Varint.Decode(reader);
    r := reader.ReadExact(length);
  }

  /** `decode_packet` */
  method DecodePacketLoop(p: Platform, packet: PacketDef, bytes: seq<byte>) returns (r: Result<SonicValue>)
    requires p.Valid()
    ensures r == DecodePacket(p, packet, bytes)
  {
    hide DecodeType, ReadSector, Inflated, Huffman.WellFormed;
    var data :- Inflated(p, packet, bytes);
    match (packet.packetType, packet.dataMax)
    case (SingleType(kind), SingleLimit(cap)) =>
      r := DecodeTypeLoop(p, kind, data, cap, Get(packet.enumData, 0));
    case (ObjectType(kinds), ObjectLimit(caps)) =>
      if |kinds| != |caps| {
        return Err(InvalidData);
      }
      var reader := new Reader(data);
      var fields: seq<SonicValue>, enumIndex := [], 0;
      ghost var whole := DecodeFields(p, kinds, caps, packet.enumData, 0, data, 0);
      PrependNothing(whole);
      assert kinds[0..] == kinds && caps[0..] == caps;
      for i := 0 to |kinds|
        invariant reader.Valid() && reader.bytes == data
        invariant whole == Prepend(fields, DecodeFields(p, kinds[i..], caps[i..], packet.enumData, enumIndex, data, reader.offset))
      {
        assert kinds[i..][1..] == kinds[i + 1..] && caps[i..][1..] == caps[i + 1..];
        var sector :- TakeSector(reader);
        var package := PackageFor(kinds[i], packet.enumData, enumIndex);
        enumIndex := package.1;
        var field :- DecodeTypeLoop(p, kinds[i], sector, caps[i], package.0);
        PrependPrepend(fields, [field], DecodeFields(p, kinds[i + 1..], caps[i + 1..], packet.enumData, enumIndex, data, reader.offset));
        fields := fields + [field];
      }
      if !reader.IsEmpty() {
        return Err(InvalidData);
      }
      assert fields + [] == fields;
      return Ok(Array(fields));
    case _ =>
      return Err(InvalidData);
  }

  method CountVarintsLoop(bytes: seq<byte>, max: u64) returns (r: Result<nat>)
    ensures r == CountVarints(bytes, 0, 0, max)
  {
    hide Varint.Read;
    var reader := new Reader(bytes);
    var count: nat := 0;
    while !reader.IsEmpty()
      invariant reader.Valid() && reader.bytes == bytes
      invariant CountVarints(bytes, 0, 0, max) == CountVarints(bytes, reader.offset, count, max)
      decreases |bytes| - reader.offset
    {
      var n :- Varint.Decode(reader);
      count := count + 1;
      if count > max {
        return Err(InvalidData);
      }
    }
    return Ok(count);
  }

  method CountStringsLoop(bytes: seq<byte>, max: u64) returns (r: Result<nat>)
    ensures r == CountStrings(bytes, 0, 0, max)
  {
    hide Varint.Read, Strings.CharFromCode;
    var reader := new Reader(bytes);
    var count: nat := 0;
    while !reader.IsEmpty()
      invariant reader.Valid() && reader.bytes == bytes
      invariant CountStrings(bytes, 0, 0, max) == CountStrings(bytes, reader.offset, count, max)
      decreases |bytes| - reader.offset
    {
      count := count + 1;
      if count > max {
        return Err(InvalidData);
      }
      var chars :- Varint.Decode(reader);
      ghost var start := reader.offset;
      for j := 0 to chars
        invariant reader.Valid() && reader.bytes == bytes && reader.offset >= start
        invariant SkipChars(bytes, start, chars) == SkipChars(bytes, reader.offset, chars - j)
      {
        var code :- Varint.Decode(reader);
        if Strings.CharFromCode(code).None? {
          return Err(InvalidData);
        }
      }
    }
    return Ok(count);
  }

  method SumLengthsLoop(reader: Reader, count: nat) returns (r: Result<nat>)
    requires reader.Valid()
    modifies reader
    ensures reader.Valid()
    ensures match SumLengths(reader.bytes, old(reader.offset), count, 0)
            case Ok((total, next)) => r == Ok(total) && reader.offset == next
            case Err(e) => r == Err(e)
  {
    hide Varint.Read;
    var total: nat := 0;
    for i := 0 to count
      invariant reader.Valid()
      invariant SumLengths(reader.bytes, old(reader.offset), count, 0) == SumLengths(reader.bytes, reader.offset, count - i, total)
    {
      var n :- Varint.Decode(reader);
      if total + n >= U64_LIMIT {
        return Err(InvalidData);
      }
      total := total + n;
    }
    return Ok(total);
  }

  method ValidateAsciiLoop(p: Platform, bytes: seq<byte>, min: u64, max: u64) returns (r: Result<()>)
    requires p.Valid()
    ensures r == ValidateAscii(p, bytes, min, max)
  {
    hide Varint.Read, SumLengths, Strings.DecodeAscii, Huffman.WellFormed;
    var reader := new Reader(bytes);
    var count :- Varint.Decode(reader);
    if count < min || count > max {
      return Err(InvalidData);
    }
    var total :- SumLengthsLoop(reader, count);
    if reader.Remaining() < CeilDiv(total, 8) {
      return Err(InvalidData);
    }
    var decoded :- Strings.DecodeAsciiLoop(p.table, bytes);
    return if Strings.Sum(Strings.Lengths(decoded)) != total then Err(InvalidData) else Ok(());
  }

  /** `validate_type` */
  method ValidateTypeLoop(p: Platform, kind: PacketType, bytes: seq<byte>, min: u64, max: u64, enums: Option<EnumPackage>) returns (r: Result<()>)
    requires p.Valid()
    ensures r == ValidateType(p, kind, bytes, min, max, enums)
  {
    hide CountVarints, CountStrings, ValidateAscii, Huffman.WellFormed;
    match kind
    case NoneType =>
      return if bytes == [] then Ok(()) else Err(InvalidData);
    case Raw | Reserved16 =>
      return Ok(());
    case ByteType | UByteType | Hex =>
      return InRange(|bytes|, min, max);
    case Enums =>
      var inRange :- InRange(|bytes|, min, max);
      if enums.None? {
        return Err(InvalidData);
      }
      return if forall i :: 0 <= i < |bytes| ==> bytes[i] < |enums.value.values| then Ok(()) else Err(InvalidData);
    case Shorts | UShorts | Floats | Doubles =>
      if |bytes| % Width(kind) != 0 {
        return Err(InvalidData);
      }
      return InRange(|bytes| / Width(kind), min, max);
    case VarInt | UVarInt | Deltas =>
      var count :- CountVarintsLoop(bytes, max);
      return InRange(count, min, max);
    case Booleans =>
      return if |bytes| < CeilDiv(min, 8) || |bytes| > CeilDiv(max, 8) then Err(InvalidData) else Ok(());
    case StringsAscii =>
      r := ValidateAsciiLoop(p, bytes, min, max);
    case StringsUtf16 =>
      var count :- CountStringsLoop(bytes, max);
      return if count < min then Err(InvalidData) else Ok(());
  }

  /** `validate_packet` */
  method ValidatePacketLoop(p: Platform, packet: PacketDef, bytes: seq<byte>) returns (r: Result<()>)
    requires p.Valid()
    ensures r == ValidatePacket(p, packet, bytes)
  {
    hide ValidateType, ReadSector, Inflated, Huffman.WellFormed;
    var data :- Inflated(p, packet, bytes);
    match (packet.packetType, packet.dataMin, packet.dataMax)
    case (SingleType(kind), SingleLimit(min), SingleLimit(max)) =>
      r := ValidateTypeLoop(p, kind, data, min, max, Get(packet.enumData, 0));
    case (ObjectType(kinds), ObjectLimit(mins), ObjectLimit(maxes)) =>
      if |kinds| != |mins| || |kinds| != |maxes| {
        return Err(InvalidData);
      }
      var reader := new Reader(data);
      var enumIndex := 0;
      ghost var whole := ValidateFields(p, kinds, mins, maxes, packet.enumData, 0, data, 0);
      assert kinds[0..] == kinds && mins[0..] == mins && maxes[0..] == maxes;
      for i := 0 to |kinds|
        invariant reader.Valid() && reader.bytes == data
        invariant whole == ValidateFields(p, kinds[i..], mins[i..], maxes[i..], packet.enumData, enumIndex, data, reader.offset)
      {
        assert kinds[i..][1..] == kinds[i + 1..] && mins[i..][1..] == mins[i + 1..] && maxes[i..][1..] == maxes[i + 1..];
        var sector :- TakeSector(reader);
        var package := PackageFor(kinds[i], packet.enumData, enumIndex);
        enumIndex := package.1;
        var valid :- ValidateTypeLoop(p, kinds[i], sector, mins[i], maxes[i], package.0);
      }
      return if !reader.IsEmpty() then Err(InvalidData) else Ok(());
    case _ =>
      return Err(InvalidData);
  }
}
