/** Which registries can be written, and the numbers that stand for kinds and options. */
module RegistryMeaning {
  import opened Primitives
  import opened Schema
  import opened Registry
  import opened RegistryProofs
  import Varint

  /** At most 255 characters of Latin-1. */
  predicate Short(text: string) {
    |text| < 0x100 && forall i :: 0 <= i < |text| ==> text[i] <= '\U{00FF}'
  }

  predicate ShortPackage<M(!new)>(texts: Texts<M>, package: EnumPackage) {
    Short(package.name) && |package.values| < 0x100 && forall i :: 0 <= i < |package.values| ==> Short(texts.Show(package.values[i]))
  }

  /** One minimum and one maximum, or one of each for every field, of which there are at most 255. */
  predicate Shaped(definition: PacketDef) {
    match (definition.packetType, definition.dataMin, definition.dataMax)
    case (SingleType(_), SingleLimit(_), SingleLimit(_)) => true
    case (ObjectType(kinds), ObjectLimit(mins), ObjectLimit(maxes)) => |kinds| == |mins| == |maxes| && |kinds| < 0x100
    case _ => false
  }

  predicate Fits<M(!new)>(texts: Texts<M>, packet: Packet<M>) {
    && Short(packet.tag) && texts.write(packet.metadata).Done? && 0 <= packet.definition.dataBatching < 0x100
    && |packet.definition.enumData| < 0x100
    && (forall i :: 0 <= i < |packet.definition.enumData| ==> ShortPackage(texts, packet.definition.enumData[i]))
    && Shaped(packet.definition)
  }

  lemma ShortIsLatin1(text: string)
    ensures Latin1Record(text).Done? <==> Short(text)
    ensures IsLatin1(text) && |text| <= 255 <==> Short(text)
  {
    assert forall i :: 0 <= i < |text| ==> (text[i] <= '\U{00FF}' <==> text[i] as int < 256);
  }

  lemma {:induction false} ValuesFitIff<M(!new)>(texts: Texts<M>, values: seq<EnumValue>)
    ensures EnumValuesRecord(texts, values).Done? <==> forall i :: 0 <= i < |values| ==> Short(texts.Show(values[i]))
  {
    hide Short, Texts.Show, IsLatin1;
    if values != [] {
      ShortIsLatin1(texts.Show(values[0]));
      ValuesFitIff(texts, values[1..]);
      assert forall i :: 1 <= i < |values| ==> values[i] == values[1..][i - 1];
      assert forall i :: 0 <= i < |values[1..]| ==> values[1..][i] == values[i + 1];
    }
  }

  lemma {:induction false} PackagesFitIff<M(!new)>(texts: Texts<M>, packages: seq<EnumPackage>)
    ensures PackagesRecord(texts, packages).Done? <==> forall i :: 0 <= i < |packages| ==> ShortPackage(texts, packages[i])
  {
    hide Short, Texts.Show, EnumValuesRecord, Latin1Record;
    if packages != [] {
      ShortIsLatin1(packages[0].name);
      ValuesFitIff(texts, packages[0].values);
      PackagesFitIff(texts, packages[1..]);
      assert forall i :: 1 <= i < |packages| ==> packages[i] == packages[1..][i - 1];
      assert forall i :: 0 <= i < |packages[1..]| ==> packages[1..][i] == packages[i + 1];
    }
  }

  lemma {:induction false} TableFitsIff<M(!new)>(texts: Texts<M>, packets: seq<Packet<M>>)
    ensures Table(texts, packets).Done? <==> forall i :: 0 <= i < |packets| ==> Fits(texts, packets[i])
  {
    hide Short, ShortPackage, PackagesRecord, Latin1Record;
    if packets != [] {
      ShortIsLatin1(packets[0].tag);
      PackagesFitIff(texts, packets[0].definition.enumData);
      TableFitsIff(texts, packets[1..]);
      assert forall i :: 1 <= i < |packets| ==> packets[i] == packets[1..][i - 1];
      assert forall i :: 0 <= i < |packets[1..]| ==> packets[1..][i] == packets[i + 1];
    }
  }

  /** A registry with ASCII enum text can be written if and only if every packet fits: 255 of everything that is counted in a byte. */
  lemma SerializesIff<M(!new)>(texts: Texts<M>, packets: seq<Packet<M>>)
    requires texts.Valid() && PlainTable(texts, packets)
    ensures Serialize(texts, packets).Done? <==> forall i :: 0 <= i < |packets| ==> Fits(texts, packets[i])
  {
    hide Serialize, Table, Fits, PlainTable, Texts.Valid;
    WritesTheTable(texts, packets);
    TableFitsIff(texts, packets);
  }

  /** The kinds by their numbers; 15 is none. */
  const KINDS: seq<Option<PacketType>> :=
    [Some(NoneType), Some(Raw), Some(StringsAscii), Some(StringsUtf16), Some(Enums), Some(ByteType), Some(UByteType), Some(Shorts), Some(UShorts),
     Some(VarInt), Some(UVarInt), Some(Deltas), Some(Floats), Some(Doubles), Some(Booleans), None, Some(Reserved16), Some(Hex)]

  /** Every kind is written as its number, and a byte is read as the kind with that number, if there is one. */
  lemma KindsByNumber(code: byte, kind: PacketType)
    ensures TypeCode(kind) < |KINDS| && KINDS[TypeCode(kind)] == Some(kind)
    ensures TypeOf(code) == if code < |KINDS| && KINDS[code].Some? then Done(KINDS[code].value) else Failed(ProtocolError)
  {
  }

  /** Whether bit `n` of a byte is set, counted from the low end. */
  predicate BitSet(b: byte, n: nat)
    requires n < 8
  {
    match n
    case 0 => b % 2 == 1
    case 1 => b / 2 % 2 == 1
    case 2 => b / 4 % 2 == 1
    case 3 => b / 8 % 2 == 1
    case 4 => b / 16 % 2 == 1
    case 5 => b / 32 % 2 == 1
    case 6 => b / 64 % 2 == 1
    case 7 => b / 128 % 2 == 1
  }

  /** The options of a packet are bits of its flags: from the low end, the third to sixth and the eighth. */
  lemma FlagsByBit<M(!new)>(packet: Packet<M>)
    ensures BitSet(Flags(packet), 7) <==> packet.dontSpread
    ensures BitSet(Flags(packet), 5) <==> packet.isObject
    ensures BitSet(Flags(packet), 4) <==> packet.autoFlatten
    ensures BitSet(Flags(packet), 3) <==> packet.definition.gzipCompression
    ensures BitSet(Flags(packet), 2) <==> packet.rereference
    ensures !BitSet(Flags(packet), 0) && !BitSet(Flags(packet), 1) && !BitSet(Flags(packet), 6)
  {
  }

  /** What a record begins with: the tag behind its length, the options, the metadata behind theirs, delay and number of packages. */
  lemma HeadLayout<M(!new)>(texts: Texts<M>, packet: Packet<M>)
    requires Head(texts, packet).Done?
    ensures var head, n := Head(texts, packet).value, |packet.tag|;
            var metadata := texts.write(packet.metadata).value;
            var length := Varint.Encode(|metadata|);
            && |head| == n + 2 + |length| + |metadata| + 2
            && head[0] == n && (forall i :: 0 <= i < n ==> head[1 + i] == packet.tag[i] as int) && head[1 + n] == Flags(packet)
            && head[n + 2..n + 2 + |length|] == length && head[n + 2 + |length|..n + 2 + |length| + |metadata|] == metadata
            && head[|head| - 2] == packet.definition.dataBatching && head[|head| - 1] == |packet.definition.enumData|
  {
    hide Varint.Encode, Flags;
    var metadata := texts.write(packet.metadata).value;
    var tag, length := Latin1Record(packet.tag).value, Varint.Encode(|metadata|);
    var ends := [packet.definition.dataBatching as byte, |packet.definition.enumData| as byte];
    assert Head(texts, packet).value == tag + ([Flags(packet)] + (length + (metadata + ends)));
  }

  /** The text of an enum value is that of the application, of the number, or a word. */
  lemma ShownText<M(!new)>(texts: Texts<M>, text: string, number: Float64)
    ensures texts.Show(EnumString(text)) == text && texts.Show(EnumNumber(number)) == texts.format(number)
    ensures texts.Show(EnumBool(true)) == "true" && texts.Show(EnumBool(false)) == "false"
    ensures texts.Show(EnumUndefined) == "undefined" && texts.Show(EnumNull) == "null"
  {
  }

  /** Kinds of enum values by their numbers: only the word for true is true, undefined and null need no text, and there are five kinds. */
  lemma RecognizedValue<M(!new)>(texts: Texts<M>, kind: byte, text: string)
    ensures texts.Recognize(kind, text).Done? <==> kind < 5 && (kind == 1 ==> texts.parse(text).Some?)
    ensures texts.Recognize(kind, text).Failed? ==> texts.Recognize(kind, text) == Failed(ProtocolError)
    ensures texts.Recognize(kind, text).Done? ==>
              var value := texts.Recognize(kind, text).value;
              && KindOf(value) == kind && (value.EnumString? ==> value.text == text) && (value.EnumBool? ==> (value.flag <==> text == "true"))
              && (value.EnumNumber? ==> texts.parse(text) == Some(value.number))
  {
  }
}
