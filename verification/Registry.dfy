/** The packet table that a server sends in its handshake (`rust/src/registry.rs`). */
module Registry {
  import opened Primitives
  import opened Schema
  import Varint

  /** `Panic` is an index out of bounds, which the program does not catch. */
  datatype Failure = SchemaError | ProtocolError | JsonError | Panic

  datatype Outcome<+T> = Done(value: T) | Failed(why: Failure) {
    predicate IsFailure() {
      Failed?
    }

    function PropagateFailure<U>(): Outcome<U>
      requires Failed?
    {
      Failed(why)
    }

    function Extract(): T
      requires Done?
    {
      value
    }
  }

  /** Metadata as JSON, and numbers as text. */
  datatype Texts<!M(!new)> = Texts(
    write: M -> Outcome<seq<byte>>,
    read: seq<byte> -> Outcome<M>,
    format: Float64 -> string,
    parse: string -> Option<Float64>)
  {
    ghost predicate Valid() {
      && (forall m :: write(m).Done? ==> read(write(m).value) == Done(m) && |write(m).value| < U64_LIMIT)
      && (forall x :: IsAscii(format(x)))
    }

    /** `to_string` of an enum value. */
    function Show(value: EnumValue): string {
      match value
      case EnumString(text) => text
      case EnumNumber(number) => format(number)
      case EnumBool(flag) => if flag then "true" else "false"
      case EnumUndefined => "undefined"
      case EnumNull => "null"
    }

    /** The enum value of a kind byte and a text. */
    function Recognize(kind: byte, text: string): Outcome<EnumValue> {
      match kind
      case 0 => Done(EnumString(text))
      case 1 => (match parse(text) case Some(number) => Done(EnumNumber(number)) case None => Failed(ProtocolError))
      case 2 => Done(EnumBool(text == "true"))
      case 3 => Done(EnumUndefined)
      case 4 => Done(EnumNull)
      case _ => Failed(ProtocolError)
    }
  }

  datatype Packet<M> = Packet(
    tag: string,
    isObject: bool,
    dontSpread: bool,
    autoFlatten: bool,
    rereference: bool,
    definition: PacketDef,
    metadata: M,
    rateLimit: nat,
    enabled: bool)

  function KindOf(value: EnumValue): byte {
    match value
    case EnumString(_) => 0
    case EnumNumber(_) => 1
    case EnumBool(_) => 2
    case EnumUndefined => 3
    case EnumNull => 4
  }

  function TypeCode(kind: PacketType): byte {
    match kind
    case NoneType => 0
    case Raw => 1
    case StringsAscii => 2
    case StringsUtf16 => 3
    case Enums => 4
    case ByteType => 5
    case UByteType => 6
    case Shorts => 7
    case UShorts => 8
    case VarInt => 9
    case UVarInt => 10
    case Deltas => 11
    case Floats => 12
    case Doubles => 13
    case Booleans => 14
    case Reserved16 => 16
    case Hex => 17
  }

  function TypeOf(code: byte): Outcome<PacketType> {
    match code
    case 0 => Done(NoneType)
    case 1 => Done(Raw)
    case 2 => Done(StringsAscii)
    case 3 => Done(StringsUtf16)
    case 4 => Done(Enums)
    case 5 => Done(ByteType)
    case 6 => Done(UByteType)
    case 7 => Done(Shorts)
    case 8 => Done(UShorts)
    case 9 => Done(VarInt)
    case 10 => Done(UVarInt)
    case 11 => Done(Deltas)
    case 12 => Done(Floats)
    case 13 => Done(Doubles)
    case 14 => Done(Booleans)
    case 16 => Done(Reserved16)
    case 17 => Done(Hex)
    case _ => Failed(ProtocolError)
  }

  // ---- writing

  predicate IsLatin1(text: string) {
    forall i :: 0 <= i < |text| ==> text[i] as int < 256
  }

  predicate IsAscii(text: string) {
    forall i :: 0 <= i < |text| ==> text[i] as int < 128
  }

  function Latin1Bytes(text: string): (bytes: seq<byte>)
    requires IsLatin1(text)
    ensures |bytes| == |text|
  {
    seq(|text|, i requires 0 <= i < |text| && text[i] as int < 256 => text[i] as int)
  }

  function Latin1(bytes: seq<byte>): (text: string)
    ensures |text| == |bytes|
  {
    seq(|bytes|, i requires 0 <= i < |bytes| => bytes[i] as char)
  }

  /** Characters from U+0080 on take two bytes in UTF-8, as far as Latin-1 goes. */
  function Utf8Length(text: string): (n: nat)
    requires IsLatin1(text)
    ensures |text| <= n && (n == |text| <==> IsAscii(text))
  {
    if text == [] then 0
    else
      var rest := Utf8Length(text[1..]);
      assert IsAscii(text) <==> text[0] as int < 128 && IsAscii(text[1..]) by {
        assert text == [text[0]] + text[1..];
      }
      (if text[0] as int < 128 then 1 else 2) + rest
  }

  /** `write_latin1`: the length in one byte, then the characters. */
  function Latin1Record(text: string): Outcome<seq<byte>> {
    if !IsLatin1(text) || |text| > 255 then Failed(SchemaError) else Done([|text|] + Latin1Bytes(text))
  }

  function Insert<T>(s: seq<T>, at: nat, x: T): seq<T>
    requires at <= |s|
  {
    s[..at] + [x] + s[at..]
  }

  /** The kind byte is inserted behind what is taken for the length byte, counting back the UTF-8 length of the text. */
  function AppendEnumValue<M(!new)>(texts: Texts<M>, out: seq<byte>, value: EnumValue): Outcome<seq<byte>> {
    var text := texts.Show(value);
    var framed :- Latin1Record(text);
    if |out + framed| < Utf8Length(text) then Failed(Failure.Panic)
    else Done(Insert(out + framed, |out + framed| - Utf8Length(text), KindOf(value)))
  }

  function AppendEnumValues<M(!new)>(texts: Texts<M>, out: seq<byte>, values: seq<EnumValue>): Outcome<seq<byte>>
    decreases |values|
  {
    if values == [] then Done(out)
    else
      var more :- AppendEnumValue(texts, out, values[0]);
      AppendEnumValues(texts, more, values[1..])
  }

  function AppendEnum<M(!new)>(texts: Texts<M>, out: seq<byte>, package: EnumPackage): Outcome<seq<byte>> {
    var name :- Latin1Record(package.name);
    if |package.values| > 255 then Failed(SchemaError)
    else AppendEnumValues(texts, out + name + [|package.values|], package.values)
  }

  function AppendEnums<M(!new)>(texts: Texts<M>, out: seq<byte>, packages: seq<EnumPackage>): Outcome<seq<byte>>
    decreases |packages|
  {
    if packages == [] then Done(out)
    else
      var more :- AppendEnum(texts, out, packages[0]);
      AppendEnums(texts, more, packages[1..])
  }

  function Bit(flag: bool, weight: nat): nat {
    if flag then weight else 0
  }

  function Flags<M>(packet: Packet<M>): byte {
    Bit(packet.dontSpread, 0x80) + Bit(packet.isObject, 0x20) + Bit(packet.autoFlatten, 0x10)
    + Bit(packet.definition.gzipCompression, 0x08) + Bit(packet.rereference, 0x04)
  }

  /** Tag, flags, metadata, batching delay and number of enum packages. */
  function Head<M(!new)>(texts: Texts<M>, packet: Packet<M>): Outcome<seq<byte>> {
    var tag :- Latin1Record(packet.tag);
    var metadata :- texts.write(packet.metadata);
    if !(0 <= packet.definition.dataBatching < 256) || |packet.definition.enumData| > 255 then Failed(SchemaError)
    else Done(tag + ([Flags(packet)] + (Varint.Encode(|metadata|) + (metadata + [packet.definition.dataBatching, |packet.definition.enumData|]))))
  }

  function TypeCodes(kinds: seq<PacketType>): (codes: seq<byte>)
    ensures |codes| == |kinds|
  {
    seq(|kinds|, i requires 0 <= i < |kinds| => TypeCode(kinds[i]))
  }

  /** The types with their limits, maxima first. */
  function Tail(definition: PacketDef): Outcome<seq<byte>> {
    match (definition.packetType, definition.dataMax, definition.dataMin)
    case (SingleType(kind), SingleLimit(max), SingleLimit(min)) =>
      Done(Varint.Encode(max) + (Varint.Encode(min) + [TypeCode(kind)]))
    case (ObjectType(kinds), ObjectLimit(maxes), ObjectLimit(mins)) =>
      if |kinds| != |maxes| || |kinds| != |mins| || |kinds| > 255 then Failed(SchemaError)
      else Done([|kinds|] + (Varint.EncodeAll(maxes) + (Varint.EncodeAll(mins) + TypeCodes(kinds))))
    case _ => Failed(SchemaError)
  }

  function AppendPacket<M(!new)>(texts: Texts<M>, out: seq<byte>, packet: Packet<M>): Outcome<seq<byte>> {
    var head :- Head(texts, packet);
    var enums :- AppendEnums(texts, out + head, packet.definition.enumData);
    var tail :- Tail(packet.definition);
    Done(enums + tail)
  }

  function AppendPackets<M(!new)>(texts: Texts<M>, out: seq<byte>, packets: seq<Packet<M>>): Outcome<seq<byte>>
    decreases |packets|
  {
    if packets == [] then Done(out)
    else
      var more :- AppendPacket(texts, out, packets[0]);
      AppendPackets(texts, more, packets[1..])
  }

  function Serialize<M(!new)>(texts: Texts<M>, packets: seq<Packet<M>>): Outcome<seq<byte>> {
    AppendPackets(texts, [], packets)
  }

  // ---- reading

  function TakeAt(bytes: seq<byte>, off: nat, length: nat): Outcome<(seq<byte>, nat)>
    requires off <= |bytes|
  {
    if off + length > |bytes| then Failed(ProtocolError) else Done((bytes[off..off + length], off + length))
  }

  function ByteAt(bytes: seq<byte>, off: nat): (r: Outcome<(byte, nat)>)
    requires off <= |bytes|
    ensures r.Done? ==> r.value.1 == off + 1 <= |bytes|
  {
    if off == |bytes| then Failed(ProtocolError) else Done((bytes[off], off + 1))
  }

  function VarintAt(bytes: seq<byte>, off: nat): (r: Outcome<(u64, nat)>)
    requires off <= |bytes|
    ensures r.Done? ==> off < r.value.1 <= |bytes|
  {
    match Varint.Read(bytes, off)
    case Ok((value, next)) => Done((value, next))
    case Err(_) => Failed(ProtocolError)
  }

  function Latin1At(bytes: seq<byte>, off: nat): (r: Outcome<(string, nat)>)
    requires off <= |bytes|
    ensures r.Done? ==> off < r.value.1 <= |bytes|
  {
    var length :- ByteAt(bytes, off);
    var text :- TakeAt(bytes, length.1, length.0);
    Done((Latin1(text.0), text.1))
  }

  function EnumValueAt<M(!new)>(texts: Texts<M>, bytes: seq<byte>, off: nat): (r: Outcome<(EnumValue, nat)>)
    requires off <= |bytes|
    ensures r.Done? ==> off < r.value.1 <= |bytes|
  {
    var length :- ByteAt(bytes, off);
    var kind :- ByteAt(bytes, length.1);
    var text :- TakeAt(bytes, kind.1, length.0);
    var value :- texts.Recognize(kind.0, Latin1(text.0));
    Done((value, text.1))
  }

  function EnumValuesAt<M(!new)>(texts: Texts<M>, bytes: seq<byte>, off: nat, count: nat): (r: Outcome<(seq<EnumValue>, nat)>)
    requires off <= |bytes|
    ensures r.Done? ==> off <= r.value.1 <= |bytes|
    decreases count
  {
    if count == 0 then Done(([], off))
    else
      var first :- EnumValueAt(texts, bytes, off);
      var rest :- EnumValuesAt(texts, bytes, first.1, count - 1);
      Done(([first.0] + rest.0, rest.1))
  }

  function EnumAt<M(!new)>(texts: Texts<M>, bytes: seq<byte>, off: nat): (r: Outcome<(EnumPackage, nat)>)
    requires off <= |bytes|
    ensures r.Done? ==> off < r.value.1 <= |bytes|
  {
    var name :- Latin1At(bytes, off);
    var count :- ByteAt(bytes, name.1);
    var values :- EnumValuesAt(texts, bytes, count.1, count.0);
    Done((EnumPackage(name.0, values.0), values.1))
  }

  function EnumsAt<M(!new)>(texts: Texts<M>, bytes: seq<byte>, off: nat, count: nat): (r: Outcome<(seq<EnumPackage>, nat)>)
    requires off <= |bytes|
    ensures r.Done? ==> off <= r.value.1 <= |bytes|
    decreases count
  {
    if count == 0 then Done(([], off))
    else
      var first :- EnumAt(texts, bytes, off);
      var rest :- EnumsAt(texts, bytes, first.1, count - 1);
      Done(([first.0] + rest.0, rest.1))
  }

  function VarintsAt(bytes: seq<byte>, off: nat, count: nat): (r: Outcome<(seq<u64>, nat)>)
    requires off <= |bytes|
    ensures r.Done? ==> off <= r.value.1 <= |bytes|
    decreases count
  {
    if count == 0 then Done(([], off))
    else
      var first :- VarintAt(bytes, off);
      var rest :- VarintsAt(bytes, first.1, count - 1);
      Done(([first.0] + rest.0, rest.1))
  }

  function TypesAt(bytes: seq<byte>, off: nat, count: nat): (r: Outcome<(seq<PacketType>, nat)>)
    requires off <= |bytes|
    ensures r.Done? ==> off <= r.value.1 <= |bytes|
    decreases count
  {
    if count == 0 then Done(([], off))
    else
      var code :- ByteAt(bytes, off);
      var first :- TypeOf(code.0);
      var rest :- TypesAt(bytes, code.1, count - 1);
      Done(([first] + rest.0, rest.1))
  }

  datatype Prefix<M> = Prefix(tag: string, flags: byte, metadata: M, batching: byte, enums: byte)

  function HeadAt<M(!new)>(texts: Texts<M>, bytes: seq<byte>, off: nat): (r: Outcome<(Prefix<M>, nat)>)
    requires off <= |bytes|
    ensures r.Done? ==> off < r.value.1 <= |bytes|
  {
    var tag :- Latin1At(bytes, off);
    var flags :- ByteAt(bytes, tag.1);
    var length :- VarintAt(bytes, flags.1);
    var json :- TakeAt(bytes, length.1, length.0);
    var metadata :- texts.read(json.0);
    var batching :- ByteAt(bytes, json.1);
    var enums :- ByteAt(bytes, batching.1);
    Done((Prefix(tag.0, flags.0, metadata, batching.0, enums.0), enums.1))
  }

  datatype Shape = Shape(packetType: SchemaType, dataMin: SchemaLimit, dataMax: SchemaLimit)

  function TailAt(bytes: seq<byte>, off: nat, isObject: bool): (r: Outcome<(Shape, nat)>)
    requires off <= |bytes|
    ensures r.Done? ==> off < r.value.1 <= |bytes|
  {
    if isObject then
      var count :- ByteAt(bytes, off);
      var maxes :- VarintsAt(bytes, count.1, count.0);
      var mins :- VarintsAt(bytes, maxes.1, count.0);
      var kinds :- TypesAt(bytes, mins.1, count.0);
      Done((Shape(ObjectType(kinds.0), ObjectLimit(mins.0), ObjectLimit(maxes.0)), kinds.1))
    else
      var max :- VarintAt(bytes, off);
      var min :- VarintAt(bytes, max.1);
      var code :- ByteAt(bytes, min.1);
      var kind :- TypeOf(code.0);
      Done((Shape(SingleType(kind), SingleLimit(min.0), SingleLimit(max.0)), code.1))
  }

  /** `flags & weight != 0` */
  predicate Has(flags: byte, weight: nat)
    requires weight > 0
  {
    (flags / weight) % 2 == 1
  }

  /** What the reader makes of the parts of a packet: batch size, rate limit and activation are not transmitted. */
  function Assemble<M>(prefix: Prefix<M>, enums: seq<EnumPackage>, shape: Shape): Packet<M> {
    Packet(prefix.tag, Has(prefix.flags, 0x20), Has(prefix.flags, 0x80), Has(prefix.flags, 0x10), Has(prefix.flags, 0x04),
           PacketDef(shape.packetType, shape.dataMin, shape.dataMax, prefix.batching, 10, Has(prefix.flags, 0x08), enums),
           prefix.metadata, 0, true)
  }

  function PacketAt<M(!new)>(texts: Texts<M>, bytes: seq<byte>, off: nat): (r: Outcome<(Packet<M>, nat)>)
    requires off <= |bytes|
    ensures r.Done? ==> off < r.value.1 <= |bytes|
  {
    var head :- HeadAt(texts, bytes, off);
    var enums :- EnumsAt(texts, bytes, head.1, head.0.enums);
    var shape :- TailAt(bytes, enums.1, Has(head.0.flags, 0x20));
    Done((Assemble(head.0, enums.0, shape.0), shape.1))
  }

  function PacketsAt<M(!new)>(texts: Texts<M>, bytes: seq<byte>, off: nat): Outcome<seq<Packet<M>>>
    requires off <= |bytes|
    decreases |bytes| - off
  {
    if off == |bytes| then Done([])
    else
      var first :- PacketAt(texts, bytes, off);
      var rest :- PacketsAt(texts, bytes, first.1);
      Done([first.0] + rest)
  }

  /** What `push` accepts: at most 255 packets, no two of the same tag. */
  predicate Registrable<M>(packets: seq<Packet<M>>) {
    |packets| <= 255 && forall i, j :: 0 <= i < j < |packets| ==> packets[i].tag != packets[j].tag
  }

  function Deserialize<M(!new)>(texts: Texts<M>, bytes: seq<byte>): Outcome<seq<Packet<M>>> {
    var packets :- PacketsAt(texts, bytes, 0);
    if Registrable(packets) then Done(packets) else Failed(SchemaError)
  }
}
