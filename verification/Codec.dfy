/** Encoding, decoding and validating one packet: three separate walks (`codec/encode.rs`, `decode.rs`, `validate.rs`). */
module Codec {
  import opened Primitives
  import opened Integers
  import opened Schema
  import Varint
  import Bits
  import Strings
  import Hex
  import SizeLimit

  // ---- fixed-width elements

  /** Bytes per element, zero for the kinds without a fixed width. */
  function Width(kind: PacketType): nat {
    match kind
    case ByteType | UByteType => 1
    case Shorts | UShorts => 2
    case Floats => 4
    case Doubles => 8
    case _ => 0
  }

  function BigEndian16(n: nat): seq<byte>
    requires n < 0x1_0000
  {
    [n / 256, n % 256]
  }

  function FromBigEndian16(high: nat, low: nat): nat {
    256 * high + low
  }

  /** The bytes of one element. */
  function ToChunk(p: Platform, kind: PacketType, v: SonicValue): Result<seq<byte>>
    requires Width(kind) > 0
  {
    match kind
    case ByteType =>
      var n :- Integer(v);
      if ZigzagEncode(n) < 0x100 then Ok([ZigzagEncode(n)]) else Err(InvalidData)
    case UByteType =>
      var n :- Unsigned(v);
      if n < 0x100 then Ok([n]) else Err(InvalidData)
    case Shorts =>
      var n :- Integer(v);
      if ZigzagEncode(n) < 0x1_0000 then Ok(BigEndian16(ZigzagEncode(n))) else Err(InvalidData)
    case UShorts =>
      var n :- Unsigned(v);
      if n < 0x1_0000 then Ok(BigEndian16(n)) else Err(InvalidData)
    case Floats =>
      (match v
       case F32(f) => Ok(p.floats.encode32(f))
       case F64(d) => Ok(p.floats.encode32(p.floats.narrow(d)))
       case _ => Err(InvalidData))
    case Doubles =>
      (match v
       case F64(d) => Ok(p.floats.encode64(d))
       case F32(f) => Ok(p.floats.encode64(p.floats.widen(f)))
       case _ => Err(InvalidData))
  }

  /** The element in a chunk of the right width. */
  function FromChunk(p: Platform, kind: PacketType, chunk: seq<byte>): SonicValue
    requires Width(kind) > 0 && |chunk| == Width(kind)
  {
    match kind
    case ByteType => I64(ZigzagDecode(chunk[0]))
    case UByteType => U64(chunk[0])
    case Shorts => I64(ZigzagDecode(FromBigEndian16(chunk[0], chunk[1])))
    case UShorts => U64(FromBigEndian16(chunk[0], chunk[1]))
    case Floats => F32(p.floats.decode32(chunk))
    case Doubles => F64(p.floats.decode64(chunk))
  }

  function EncodeChunks(p: Platform, kind: PacketType, vals: seq<SonicValue>): Result<seq<byte>>
    requires Width(kind) > 0
  {
    if vals == [] then Ok([])
    else
      var chunk :- ToChunk(p, kind, vals[0]);
      Prepend(chunk, EncodeChunks(p, kind, vals[1..]))
  }

  /** `chunks_exact`: an incomplete last chunk is dropped. */
  function DecodeChunks(p: Platform, kind: PacketType, bytes: seq<byte>): (vals: seq<SonicValue>)
    requires Width(kind) > 0
  {
    if |bytes| < Width(kind) then []
    else [FromChunk(p, kind, bytes[..Width(kind)])] + DecodeChunks(p, kind, bytes[Width(kind)..])
  }

  // ---- variable-length integers

  predicate IsVarKind(kind: PacketType) {
    kind.VarInt? || kind.UVarInt? || kind.Deltas?
  }

  /** The number sent for `v` after `previous`, and what becomes the next `previous`. */
  function ToVarint(kind: PacketType, v: SonicValue, previous: i64): Result<(nat, i64)> {
    if kind.UVarInt? then
      var n :- Unsigned(v);
      Ok((n, previous))
    else
      var n :- Integer(v);
      Ok((ZigzagEncode(if kind.Deltas? then AsI64(n - previous) else n), n))
  }

  function FromVarint(kind: PacketType, n: nat, previous: i64): (r: (SonicValue, i64))
    requires n < U64_LIMIT
  {
    if kind.UVarInt? then (U64(n), previous)
    else if kind.Deltas? then
      var sum: i64 := AsI64(previous + ZigzagDecode(n));
      (I64(sum), sum)
    else (I64(ZigzagDecode(n)), previous)
  }

  function EncodeVarints(kind: PacketType, vals: seq<SonicValue>, previous: i64): Result<seq<byte>>
    decreases |vals|
  {
    if vals == [] then Ok([])
    else
      var here :- ToVarint(kind, vals[0], previous);
      Prepend(Varint.Encode(here.0), EncodeVarints(kind, vals[1..], here.1))
  }

  function DecodeVarints(kind: PacketType, bytes: seq<byte>, off: nat, previous: i64): (r: Result<seq<SonicValue>>)
    requires off <= |bytes|
    decreases |bytes| - off
  {
    if off == |bytes| then Ok([])
    else
      var n :- Varint.Read(bytes, off);
      var here := FromVarint(kind, n.0, previous);
      Prepend([here.0], DecodeVarints(kind, bytes, n.1, here.1))
  }

  // ---- enums, booleans, strings

  /** `position(..) as u8`: the index keeps its low eight bits only. */
  function EncodeEnums(p: Platform, package: EnumPackage, vals: seq<SonicValue>): Result<seq<byte>> {
    if vals == [] then Ok([])
    else
      var wanted :- p.EnumFromSonic(vals[0]);
      match p.Position(package.values, wanted)
      case None => Err(InvalidData)
      case Some(index) => Prepend([index % 256], EncodeEnums(p, package, vals[1..]))
  }

  function DecodeEnums(package: EnumPackage, bytes: seq<byte>): Result<seq<SonicValue>> {
    if bytes == [] then Ok([])
    else if bytes[0] < |package.values| then
      Prepend([EnumToSonic(package.values[bytes[0]])], DecodeEnums(package, bytes[1..]))
    else Err(InvalidData)
  }

  function ToBools(vals: seq<SonicValue>): (r: Result<seq<bool>>)
    ensures r.Ok? <==> forall i :: 0 <= i < |vals| ==> vals[i].Bool?
    ensures r.Ok? ==> |r.value| == |vals| && forall i :: 0 <= i < |vals| ==> vals[i] == Bool(r.value[i])
  {
    if vals == [] then Ok([])
    else if vals[0].Bool? then Prepend([vals[0].b], ToBools(vals[1..]))
    else Err(InvalidData)
  }

  function ToStrings(vals: seq<SonicValue>): (r: Result<seq<string>>)
    ensures r.Ok? <==> forall i :: 0 <= i < |vals| ==> vals[i].String?
    ensures r.Ok? ==> |r.value| == |vals| && forall i :: 0 <= i < |vals| ==> vals[i] == String(r.value[i])
  {
    if vals == [] then Ok([])
    else if vals[0].String? then Prepend([vals[0].s], ToStrings(vals[1..]))
    else Err(InvalidData)
  }

  function FromBools(bools: seq<bool>): seq<SonicValue> {
    seq(|bools|, i requires 0 <= i < |bools| => Bool(bools[i]))
  }

  function FromStrings(texts: seq<string>): seq<SonicValue> {
    seq(|texts|, i requires 0 <= i < |texts| => String(texts[i]))
  }

  // ---- one sector

  function EncodeType(p: Platform, kind: PacketType, value: SonicValue, enums: Option<EnumPackage>): Result<seq<byte>> {
    var vals := Items(value);
    match kind
    case NoneType => if value in {Undefined, Null, Array([])} then Ok([]) else Err(InvalidData)
    case Raw | Reserved16 => if value.Bytes? then Ok(value.bytes) else Err(InvalidData)
    case ByteType | UByteType | Shorts | UShorts | Floats | Doubles => EncodeChunks(p, kind, vals)
    case VarInt | UVarInt | Deltas => EncodeVarints(kind, vals, 0)
    case Booleans =>
      var bools :- ToBools(vals);
      Ok(Bits.Pack(bools))
    case StringsAscii =>
      var texts :- ToStrings(vals);
      Strings.EncodeAscii(p.table, texts)
    case StringsUtf16 =>
      var texts :- ToStrings(vals);
      Ok(Strings.EncodeCodepoints(texts))
    case Hex => if value.String? then Hex.Decode(value.s) else Err(InvalidData)
    case Enums => if enums.None? then Err(InvalidData) else EncodeEnums(p, enums.value, vals)
  }

  function AsArray(vals: Result<seq<SonicValue>>): Result<SonicValue> {
    match vals
    case Ok(items) => Ok(Array(items))
    case Err(e) => Err(e)
  }

  /** The size in bytes of an element of a vector of values, on a 64-bit target. */
  const VALUE_SIZE: nat := 32

  /** Booleans are collected into a vector of `cap` values, whatever the bytes; the other kinds have no more values than bytes. */
  predicate RoomFor(kind: PacketType, cap: u64) {
    kind.Booleans? ==> VALUE_SIZE * cap <= MAX_ALLOCATION
  }

  ghost function DecodeType(p: Platform, kind: PacketType, bytes: seq<byte>, cap: u64, enums: Option<EnumPackage>): Result<SonicValue> {
    match kind
    case NoneType => if bytes == [] then Ok(Undefined) else Err(InvalidData)
    case Raw | Reserved16 => Ok(Bytes(bytes))
    case ByteType | UByteType | Shorts | UShorts | Floats | Doubles =>
      if |bytes| % Width(kind) != 0 then Err(InvalidData) else Ok(Array(DecodeChunks(p, kind, bytes)))
    case VarInt | UVarInt | Deltas => AsArray(DecodeVarints(kind, bytes, 0, 0))
    case Booleans => if !RoomFor(kind, cap) then Err(Panic) else Ok(Array(FromBools(Bits.Unpack(bytes, cap))))
    case StringsAscii =>
      var texts :- Strings.DecodeAscii(p.table, bytes);
      Ok(Array(FromStrings(texts)))
    case StringsUtf16 =>
      var texts :- Strings.ReadStrings(bytes, 0);
      Ok(Array(FromStrings(texts)))
    case Hex => Ok(String(Hex.Encode(bytes)))
    case Enums => if enums.None? then Err(InvalidData) else AsArray(DecodeEnums(enums.value, bytes))
  }

  // ---- validation walks the same bytes without building values

  function InRange(count: nat, min: u64, max: u64): Result<()> {
    if count < min || count > max then Err(InvalidData) else Ok(())
  }

  /** Counts varints; stops with an error as soon as there are more than `max`. */
  function CountVarints(bytes: seq<byte>, off: nat, count: nat, max: u64): Result<nat>
    requires off <= |bytes|
    decreases |bytes| - off
  {
    if off == |bytes| then Ok(count)
    else
      var n :- Varint.Read(bytes, off);
      if count + 1 > max then Err(InvalidData) else CountVarints(bytes, n.1, count + 1, max)
  }

  /** Adds up string lengths; a sum beyond 64 bits is an error. */
  function SumLengths(bytes: seq<byte>, off: nat, count: nat, total: nat): (r: Result<(nat, nat)>)
    requires off <= |bytes|
    ensures r.Ok? ==> r.value.1 <= |bytes|
    decreases count
  {
    if count == 0 then Ok((total, off))
    else
      var n :- Varint.Read(bytes, off);
      if total + n.0 >= U64_LIMIT then Err(InvalidData) else SumLengths(bytes, n.1, count - 1, total + n.0)
  }

  /** Passes over `count` code points. */
  function SkipChars(bytes: seq<byte>, off: nat, count: nat): (r: Result<nat>)
    requires off <= |bytes|
    ensures r.Ok? ==> off + count <= r.value <= |bytes|
    decreases count
  {
    if count == 0 then Ok(off)
    else
      var code :- Varint.Read(bytes, off);
      if Strings.CharFromCode(code.0).None? then Err(InvalidData) else SkipChars(bytes, code.1, count - 1)
  }

  function CountStrings(bytes: seq<byte>, off: nat, count: nat, max: u64): Result<nat>
    requires off <= |bytes|
    decreases |bytes| - off
  {
    if off == |bytes| then Ok(count)
    else if count + 1 > max then Err(InvalidData)
    else
      var chars :- Varint.Read(bytes, off);
      var next :- SkipChars(bytes, chars.1, chars.0);
      CountStrings(bytes, next, count + 1, max)
  }

  ghost function ValidateAscii(p: Platform, bytes: seq<byte>, min: u64, max: u64): Result<()> {
    var count :- Varint.Read(bytes, 0);
    if count.0 < min || count.0 > max then Err(InvalidData)
    else
      var total :- SumLengths(bytes, count.1, count.0, 0);
      if |bytes| - total.1 < CeilDiv(total.0, 8) then Err(InvalidData)
      else
        var decoded :- Strings.DecodeAscii(p.table, bytes);
        if Strings.Sum(Strings.Lengths(decoded)) != total.0 then Err(InvalidData) else Ok(())
  }

  ghost function ValidateType(p: Platform, kind: PacketType, bytes: seq<byte>, min: u64, max: u64, enums: Option<EnumPackage>): Result<()> {
    match kind
    case NoneType => if bytes == [] then Ok(()) else Err(InvalidData)
    case Raw | Reserved16 => Ok(())
    case ByteType | UByteType | Hex => InRange(|bytes|, min, max)
    case Enums =>
      var inRange :- InRange(|bytes|, min, max);
      if enums.None? then Err(InvalidData)
      else if forall i :: 0 <= i < |bytes| ==> bytes[i] < |enums.value.values| then Ok(())
      else Err(InvalidData)
    case Shorts | UShorts | Floats | Doubles =>
      if |bytes| % Width(kind) != 0 then Err(InvalidData) else InRange(|bytes| / Width(kind), min, max)
    case VarInt | UVarInt | Deltas =>
      var count :- CountVarints(bytes, 0, 0, max);
      InRange(count, min, max)
    case Booleans =>
      if |bytes| < CeilDiv(min, 8) || |bytes| > CeilDiv(max, 8) then Err(InvalidData) else Ok(())
    case StringsAscii => ValidateAscii(p, bytes, min, max)
    case StringsUtf16 =>
      var count :- CountStrings(bytes, 0, 0, max);
      if count < min then Err(InvalidData) else Ok(())
  }

  // ---- whole packets

  predicate Compressed(packet: PacketDef) {
    packet.packetType.SingleType? && packet.gzipCompression && packet.dataBatching == 0
  }

  /** The enum package of a field: only enum fields use one up. */
  function PackageFor(kind: PacketType, enums: seq<EnumPackage>, index: nat): (Option<EnumPackage>, nat) {
    if kind.Enums? then (Get(enums, index), index + 1) else (None, index)
  }

  /** Every field as a length-framed sector. */
  function EncodeFields(p: Platform, kinds: seq<PacketType>, fields: seq<SonicValue>, enums: seq<EnumPackage>, index: nat): Result<seq<byte>>
    requires |kinds| == |fields|
  {
    if kinds == [] then Ok([])
    else
      var package := PackageFor(kinds[0], enums, index);
      var data :- EncodeType(p, kinds[0], fields[0], package.0);
      Prepend(Varint.Encode(|data|) + data, EncodeFields(p, kinds[1..], fields[1..], enums, package.1))
  }

  /** The next sector and the offset behind it. */
  function ReadSector(bytes: seq<byte>, off: nat): (r: Result<(seq<byte>, nat)>)
    requires off <= |bytes|
    ensures r.Ok? ==> off < r.value.1 <= |bytes| && |r.value.0| <= |bytes|
  {
    if off == |bytes| then Err(InvalidData)
    else
      var length :- Varint.Read(bytes, off);
      var sector :- ReadExactAt(bytes, length.1, length.0);
      Ok((sector, length.1 + length.0))
  }

  ghost function DecodeFields(p: Platform, kinds: seq<PacketType>, caps: seq<u64>, enums: seq<EnumPackage>, index: nat,
                              bytes: seq<byte>, off: nat): Result<seq<SonicValue>>
    requires |kinds| == |caps| && off <= |bytes|
  {
    if kinds == [] then if off < |bytes| then Err(InvalidData) else Ok([])
    else
      var sector :- ReadSector(bytes, off);
      var package := PackageFor(kinds[0], enums, index);
      var field :- DecodeType(p, kinds[0], sector.0, caps[0], package.0);
      Prepend([field], DecodeFields(p, kinds[1..], caps[1..], enums, package.1, bytes, sector.1))
  }

  ghost function ValidateFields(p: Platform, kinds: seq<PacketType>, mins: seq<u64>, maxes: seq<u64>, enums: seq<EnumPackage>, index: nat,
                                bytes: seq<byte>, off: nat): Result<()>
    requires |kinds| == |mins| == |maxes| && off <= |bytes|
  {
    if kinds == [] then if off < |bytes| then Err(InvalidData) else Ok(())
    else
      var sector :- ReadSector(bytes, off);
      var package := PackageFor(kinds[0], enums, index);
      var valid :- ValidateType(p, kinds[0], sector.0, mins[0], maxes[0], package.0);
      ValidateFields(p, kinds[1..], mins[1..], maxes[1..], enums, package.1, bytes, sector.1)
  }

  function EncodePacket(p: Platform, packet: PacketDef, value: SonicValue): Result<seq<byte>> {
    match packet.packetType
    case SingleType(kind) =>
      var out :- EncodeType(p, kind, value, Get(packet.enumData, 0));
      Ok(if Compressed(packet) then p.deflate.compress(out) else out)
    case ObjectType(kinds) =>
      if !value.Array? || |value.items| != |kinds| then Err(InvalidData)
      else EncodeFields(p, kinds, value.items, packet.enumData, 0)
  }

  /** The bytes that decoding and validation look at. */
  function Inflated(p: Platform, packet: PacketDef, bytes: seq<byte>): Result<seq<byte>> {
    if Compressed(packet) then SizeLimit.DecompressForPacket(p.deflate, packet, bytes, false) else Ok(bytes)
  }

  predicate RoomForAll(kinds: seq<PacketType>, caps: seq<u64>)
    requires |kinds| == |caps|
  {
    forall i :: 0 <= i < |kinds| ==> RoomFor(kinds[i], caps[i])
  }

  /** No boolean maximum of the schema is beyond what a vector of values can hold. */
  predicate RoomForPacket(packet: PacketDef) {
    match (packet.packetType, packet.dataMax)
    case (SingleType(kind), SingleLimit(cap)) => RoomFor(kind, cap)
    case (ObjectType(kinds), ObjectLimit(caps)) => |kinds| == |caps| ==> RoomForAll(kinds, caps)
    case _ => true
  }

  ghost function DecodePacket(p: Platform, packet: PacketDef, bytes: seq<byte>): Result<SonicValue> {
    var data :- Inflated(p, packet, bytes);
    match (packet.packetType, packet.dataMax)
    case (SingleType(kind), SingleLimit(cap)) => DecodeType(p, kind, data, cap, Get(packet.enumData, 0))
    case (ObjectType(kinds), ObjectLimit(caps)) =>
      if |kinds| != |caps| then Err(InvalidData)
      else AsArray(DecodeFields(p, kinds, caps, packet.enumData, 0, data, 0))
    case _ => Err(InvalidData)
  }

  ghost function ValidatePacket(p: Platform, packet: PacketDef, bytes: seq<byte>): Result<()> {
    var data :- Inflated(p, packet, bytes);
    match (packet.packetType, packet.dataMin, packet.dataMax)
    case (SingleType(kind), SingleLimit(min), SingleLimit(max)) =>
      ValidateType(p, kind, data, min, max, Get(packet.enumData, 0))
    case (ObjectType(kinds), ObjectLimit(mins), ObjectLimit(maxes)) =>
      if |kinds| != |mins| || |kinds| != |maxes| then Err(InvalidData)
      else ValidateFields(p, kinds, mins, maxes, packet.enumData, 0, data, 0)
    case _ => Err(InvalidData)
  }
}
