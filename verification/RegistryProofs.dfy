/** The table round trip, and exactly when the written bytes are a table. */
module RegistryProofs {
  import opened Primitives
  import opened Schema
  import opened Registry
  import Varint

  // ---- the format: what a reader expects at each place

  function Join(a: Outcome<seq<byte>>, b: Outcome<seq<byte>>): Outcome<seq<byte>> {
    if a.Failed? then a else if b.Failed? then b else Done(a.value + b.value)
  }

  /** Length, kind, text. */
  function EnumRecord<M(!new)>(texts: Texts<M>, value: EnumValue): Outcome<seq<byte>> {
    var text := texts.Show(value);
    if !IsLatin1(text) || |text| > 255 then Failed(SchemaError)
    else Done([|text|, KindOf(value)] + Latin1Bytes(text))
  }

  function EnumValuesRecord<M(!new)>(texts: Texts<M>, values: seq<EnumValue>): Outcome<seq<byte>> {
    if values == [] then Done([]) else Join(EnumRecord(texts, values[0]), EnumValuesRecord(texts, values[1..]))
  }

  /** Name and number of values. */
  function EnumHead(package: EnumPackage): Outcome<seq<byte>> {
    var name :- Latin1Record(package.name);
    if |package.values| > 255 then Failed(SchemaError) else Done(name + [|package.values|])
  }

  function PackageRecord<M(!new)>(texts: Texts<M>, package: EnumPackage): Outcome<seq<byte>> {
    Join(EnumHead(package), EnumValuesRecord(texts, package.values))
  }

  function PackagesRecord<M(!new)>(texts: Texts<M>, packages: seq<EnumPackage>): Outcome<seq<byte>> {
    if packages == [] then Done([]) else Join(PackageRecord(texts, packages[0]), PackagesRecord(texts, packages[1..]))
  }

  function PacketRecord<M(!new)>(texts: Texts<M>, packet: Packet<M>): Outcome<seq<byte>> {
    Join(Head(texts, packet), Join(PackagesRecord(texts, packet.definition.enumData), Tail(packet.definition)))
  }

  function Table<M(!new)>(texts: Texts<M>, packets: seq<Packet<M>>): Outcome<seq<byte>> {
    if packets == [] then Done([]) else Join(PacketRecord(texts, packets[0]), Table(texts, packets[1..]))
  }

  // ---- when the writer keeps to the format

  predicate PlainValues<M(!new)>(texts: Texts<M>, values: seq<EnumValue>) {
    forall v :: v in values ==> IsAscii(texts.Show(v))
  }

  predicate PlainPackages<M(!new)>(texts: Texts<M>, packages: seq<EnumPackage>) {
    forall package :: package in packages ==> PlainValues(texts, package.values)
  }

  /** All enum text is ASCII. */
  predicate PlainTable<M(!new)>(texts: Texts<M>, packets: seq<Packet<M>>) {
    forall i :: 0 <= i < |packets| ==> PlainPackages(texts, packets[i].definition.enumData)
  }

  /**
   * `appended` is `out` with something written behind it, and `exact` is what should be there instead of `out`: plain
   * text is written as the record, and anything else leaves different bytes of the same number.
   */
  ghost predicate Writes(appended: Outcome<seq<byte>>, record: Outcome<seq<byte>>, out: seq<byte>, exact: seq<byte>, plain: bool) {
    && (record.Failed? && plain ==> appended == record)
    && (record.Done? && plain ==> appended == Done(out + record.value))
    && (record.Done? && appended.Done? ==>
          |appended.value| == |out| + |record.value| && (appended.value == exact + record.value <==> out == exact && plain))
  }

  lemma SamePrefix<T>(a: seq<T>, b: seq<T>, suffix: seq<T>)
    requires |a| == |b|
    ensures a + suffix == b + suffix <==> a == b
  {
    assert (a + suffix)[..|a|] == a && (b + suffix)[..|b|] == b;
  }

  /** Parts that do not depend on what is there already. */
  lemma FixedPart(out: seq<byte>, exact: seq<byte>, record: Outcome<seq<byte>>)
    requires |out| == |exact|
    ensures Writes(if record.Done? then Done(out + record.value) else record, record, out, exact, true)
  {
    if record.Done? {
      SamePrefix(out, exact, record.value);
    }
  }

  /** One part after the other. */
  lemma Chain(out: seq<byte>, exact: seq<byte>, first: Outcome<seq<byte>>, firstRecord: Outcome<seq<byte>>, firstPlain: bool,
              whole: Outcome<seq<byte>>, restRecord: Outcome<seq<byte>>, restPlain: bool)
    requires Writes(first, firstRecord, out, exact, firstPlain)
    requires first.Failed? ==> whole == first
    requires first.Done? && firstRecord.Done? ==> Writes(whole, restRecord, first.value, exact + firstRecord.value, restPlain)
    ensures Writes(whole, Join(firstRecord, restRecord), out, exact, firstPlain && restPlain)
  {
    if first.Done? && firstRecord.Done? && restRecord.Done? {
      assert exact + (firstRecord.value + restRecord.value) == exact + firstRecord.value + restRecord.value;
      assert out + (firstRecord.value + restRecord.value) == out + firstRecord.value + restRecord.value;
    }
  }

  /** With text beyond ASCII the length byte ends up right before the text, where the kind should be. */
  lemma AppendedValue<M(!new)>(texts: Texts<M>, out: seq<byte>, value: EnumValue)
    requires texts.Valid()
    ensures var text, appended := texts.Show(value), AppendEnumValue(texts, out, value);
            match EnumRecord(texts, value)
            case Failed(why) => appended == Failed(why)
            case Done(record) =>
              if IsAscii(text) then appended == Done(out + record)
              else appended.Done? ==>
                && |appended.value| == |out| + |record| && |record| == 2 + |text|
                && appended.value[|out| + 1] == |text| && record[1] == 0 < |text|
  {
    hide Insert;
    var text := texts.Show(value);
    if IsLatin1(text) && |text| <= 255 {
      var bytes := Latin1Bytes(text);
      if IsAscii(text) {
        InsertBehindLength(out, |text|, bytes, KindOf(value));
      } else if Utf8Length(text) <= |out + ([|text|] + bytes)| {
        InsertBeforeLength(out, |text|, bytes, KindOf(value), |out + ([|text|] + bytes)| - Utf8Length(text));
      }
    }
  }

  lemma InsertBehindLength(out: seq<byte>, length: byte, bytes: seq<byte>, kind: byte)
    ensures Insert(out + ([length] + bytes), |out| + 1, kind) == out + ([length, kind] + bytes)
  {
    var grown := out + ([length] + bytes);
    assert grown[..|out| + 1] == out + [length] && grown[|out| + 1..] == bytes;
  }

  lemma InsertBeforeLength(out: seq<byte>, length: byte, bytes: seq<byte>, kind: byte, at: nat)
    requires at <= |out|
    ensures var written := Insert(out + ([length] + bytes), at, kind);
            |written| == |out| + 2 + |bytes| && written[|out| + 1] == length
  {
    var grown := out + ([length] + bytes);
    assert grown[|out|] == length;
  }

  lemma ValueWrites<M(!new)>(texts: Texts<M>, out: seq<byte>, exact: seq<byte>, value: EnumValue)
    requires texts.Valid() && |out| == |exact|
    ensures Writes(AppendEnumValue(texts, out, value), EnumRecord(texts, value), out, exact, IsAscii(texts.Show(value)))
  {
    hide AppendEnumValue, EnumRecord, IsAscii;
    AppendedValue(texts, out, value);
    var record := EnumRecord(texts, value);
    if record.Done? {
      SamePrefix(out, exact, record.value);
      if !IsAscii(texts.Show(value)) && AppendEnumValue(texts, out, value).Done? {
        assert (exact + record.value)[|out| + 1] == record.value[1];
      }
    }
  }

  lemma {:induction false} ValuesWrite<M(!new)>(texts: Texts<M>, out: seq<byte>, exact: seq<byte>, values: seq<EnumValue>)
    requires texts.Valid() && |out| == |exact|
    ensures Writes(AppendEnumValues(texts, out, values), EnumValuesRecord(texts, values), out, exact, PlainValues(texts, values))
    decreases |values|
  {
    hide AppendEnumValue, EnumRecord, IsAscii;
    if values == [] {
      FixedPart(out, exact, Done([]));
      assert out + [] == out;
    } else {
      var first, record := AppendEnumValue(texts, out, values[0]), EnumRecord(texts, values[0]);
      ValueWrites(texts, out, exact, values[0]);
      if first.Done? && record.Done? {
        ValuesWrite(texts, first.value, exact + record.value, values[1..]);
      }
      Chain(out, exact, first, record, IsAscii(texts.Show(values[0])),
            AppendEnumValues(texts, out, values), EnumValuesRecord(texts, values[1..]), PlainValues(texts, values[1..]));
      assert PlainValues(texts, values) <==> IsAscii(texts.Show(values[0])) && PlainValues(texts, values[1..]) by {
        assert values == [values[0]] + values[1..];
      }
    }
  }

  lemma PackageWrites<M(!new)>(texts: Texts<M>, out: seq<byte>, exact: seq<byte>, package: EnumPackage)
    requires texts.Valid() && |out| == |exact|
    ensures Writes(AppendEnum(texts, out, package), PackageRecord(texts, package), out, exact, PlainValues(texts, package.values))
  {
    hide AppendEnumValues, EnumValuesRecord, PlainValues, Latin1Record;
    var head := EnumHead(package);
    FixedPart(out, exact, head);
    var first := if head.Done? then Done(out + head.value) else head;
    if head.Done? {
      ValuesWrite(texts, first.value, exact + head.value, package.values);
      assert first.value == out + Latin1Record(package.name).value + [|package.values|];
    }
    Chain(out, exact, first, head, true, AppendEnum(texts, out, package), EnumValuesRecord(texts, package.values),
          PlainValues(texts, package.values));
  }

  lemma {:induction false} PackagesWrite<M(!new)>(texts: Texts<M>, out: seq<byte>, exact: seq<byte>, packages: seq<EnumPackage>)
    requires texts.Valid() && |out| == |exact|
    ensures Writes(AppendEnums(texts, out, packages), PackagesRecord(texts, packages), out, exact, PlainPackages(texts, packages))
    decreases |packages|
  {
    hide AppendEnum, PackageRecord, PlainValues;
    if packages == [] {
      FixedPart(out, exact, Done([]));
      assert out + [] == out;
    } else {
      var first, record := AppendEnum(texts, out, packages[0]), PackageRecord(texts, packages[0]);
      PackageWrites(texts, out, exact, packages[0]);
      if first.Done? && record.Done? {
        PackagesWrite(texts, first.value, exact + record.value, packages[1..]);
      }
      Chain(out, exact, first, record, PlainValues(texts, packages[0].values),
            AppendEnums(texts, out, packages), PackagesRecord(texts, packages[1..]), PlainPackages(texts, packages[1..]));
      assert PlainPackages(texts, packages) <==> PlainValues(texts, packages[0].values) && PlainPackages(texts, packages[1..]) by {
        assert packages == [packages[0]] + packages[1..];
      }
    }
  }

  lemma PacketWrites<M(!new)>(texts: Texts<M>, out: seq<byte>, exact: seq<byte>, packet: Packet<M>)
    requires texts.Valid() && |out| == |exact|
    ensures Writes(AppendPacket(texts, out, packet), PacketRecord(texts, packet), out, exact, PlainPackages(texts, packet.definition.enumData))
  {
    hide AppendEnums, PackagesRecord, PlainPackages, Head, Tail, Texts.Valid;
    var head, tail, packages := Head(texts, packet), Tail(packet.definition), packet.definition.enumData;
    var record, plain := PackagesRecord(texts, packages), PlainPackages(texts, packages);
    FixedPart(out, exact, head);
    var first := if head.Done? then Done(out + head.value) else head;
    if head.Done? {
      var here, there := first.value, exact + head.value;
      PackagesWrite(texts, here, there, packages);
      var second := AppendEnums(texts, here, packages);
      if second.Done? && record.Done? {
        FixedPart(second.value, there + record.value, tail);
      }
      Chain(here, there, second, record, plain, AppendPacket(texts, out, packet), tail, true);
    }
    Chain(out, exact, first, head, true, AppendPacket(texts, out, packet), Join(record, tail), plain);
  }

  lemma {:induction false} PacketsWrite<M(!new)>(texts: Texts<M>, out: seq<byte>, exact: seq<byte>, packets: seq<Packet<M>>)
    requires texts.Valid() && |out| == |exact|
    ensures Writes(AppendPackets(texts, out, packets), Table(texts, packets), out, exact, PlainTable(texts, packets))
    decreases |packets|
  {
    hide AppendPacket, PacketRecord, PlainPackages, Texts.Valid;
    if packets == [] {
      FixedPart(out, exact, Done([]));
      assert out + [] == out;
    } else {
      var first, record := AppendPacket(texts, out, packets[0]), PacketRecord(texts, packets[0]);
      PacketWrites(texts, out, exact, packets[0]);
      if first.Done? && record.Done? {
        PacketsWrite(texts, first.value, exact + record.value, packets[1..]);
      }
      Chain(out, exact, first, record, PlainPackages(texts, packets[0].definition.enumData),
            AppendPackets(texts, out, packets), Table(texts, packets[1..]), PlainTable(texts, packets[1..]));
      assert PlainTable(texts, packets) <==> PlainPackages(texts, packets[0].definition.enumData) && PlainTable(texts, packets[1..]) by {
        assert forall i :: 1 <= i < |packets| ==> packets[i] == packets[1..][i - 1];
        if PlainTable(texts, packets) {
          forall i | 0 <= i < |packets[1..]| ensures PlainPackages(texts, packets[1..][i].definition.enumData) {
            assert packets[1..][i] == packets[i + 1];
          }
        }
      }
    }
  }

  /**
   * The bytes written for a registry are its table if and only if all enum text is ASCII. Without any other text the
   * writer also fails exactly where the format has no room for the registry.
   */
  lemma WritesTheTable<M(!new)>(texts: Texts<M>, packets: seq<Packet<M>>)
    requires texts.Valid()
    ensures Table(texts, packets).Done? ==> (Serialize(texts, packets) == Table(texts, packets) <==> PlainTable(texts, packets))
    ensures PlainTable(texts, packets) ==> Serialize(texts, packets) == Table(texts, packets)
  {
    hide AppendPackets, Table, PlainTable, Texts.Valid;
    PacketsWrite(texts, [], [], packets);
    var table := Table(texts, packets);
    if table.Done? {
      assert [] + table.value == table.value;
    }
  }

  // ---- reading records back

  lemma Latin1ReadsBack(bytes: seq<byte>, off: nat, text: string)
    requires Latin1Record(text).Done? && HasAt(bytes, off, Latin1Record(text).value)
    ensures Latin1At(bytes, off) == Done((text, off + 1 + |text|))
  {
    var record := Latin1Record(text).value;
    HasAtElement(bytes, off, record, 0);
    HasAtConcat(bytes, off, [|text|], Latin1Bytes(text));
    Latin1Inverse(text);
  }

  lemma Latin1Inverse(text: string)
    requires IsLatin1(text)
    ensures Latin1(Latin1Bytes(text)) == text
  {
  }

  predicate Readable<M(!new)>(texts: Texts<M>, value: EnumValue) {
    value.EnumNumber? ==> texts.parse(texts.format(value.number)) == Some(value.number)
  }

  lemma ValueReadsBack<M(!new)>(texts: Texts<M>, bytes: seq<byte>, off: nat, value: EnumValue)
    requires EnumRecord(texts, value).Done? && Readable(texts, value) && HasAt(bytes, off, EnumRecord(texts, value).value)
    ensures EnumValueAt(texts, bytes, off) == Done((value, off + |EnumRecord(texts, value).value|))
  {
    var text := texts.Show(value);
    HasAtElement(bytes, off, EnumRecord(texts, value).value, 0);
    HasAtElement(bytes, off, EnumRecord(texts, value).value, 1);
    HasAtConcat(bytes, off, [|text|, KindOf(value)], Latin1Bytes(text));
    Latin1Inverse(text);
    assert texts.Recognize(KindOf(value), text) == Done(value);
  }

  /** Whatever stands before it, a written enum value can be read back behind it if and only if its text is ASCII. */
  lemma WrittenValueReadsBackIff<M(!new)>(texts: Texts<M>, out: seq<byte>, value: EnumValue)
    requires texts.Valid() && Readable(texts, value) && AppendEnumValue(texts, out, value).Done?
    ensures |out| <= |AppendEnumValue(texts, out, value).value|
    ensures EnumValueAt(texts, AppendEnumValue(texts, out, value).value, |out|) == Done((value, |AppendEnumValue(texts, out, value).value|))
       <==> IsAscii(texts.Show(value))
  {
    hide AppendEnumValue, IsAscii, HasAt;
    AppendedValue(texts, out, value);
    var written := AppendEnumValue(texts, out, value).value;
    if IsAscii(texts.Show(value)) {
      assert HasAt(written, |out|, EnumRecord(texts, value).value) by {
        AtTheEnd(out, EnumRecord(texts, value).value);
      }
      ValueReadsBack(texts, written, |out|, value);
    }
  }

  const ACCENTED: string := ['\U{00E9}']

  /** The kind of an accented letter is written before its length, where it is read as an empty text of another kind. */
  lemma AccentIsMisplaced<M(!new)>(texts: Texts<M>, out: seq<byte>)
    ensures EnumRecord(texts, EnumString(ACCENTED)) == Done([1, 0, 0xE9])
    ensures AppendEnumValue(texts, out, EnumString(ACCENTED)) == Done(out + [0, 1, 0xE9])
  {
    assert IsLatin1(ACCENTED) && Latin1Bytes(ACCENTED) == [0xE9] && [1, 0] + [0xE9] == [1, 0, 0xE9];
    assert texts.Show(EnumString(ACCENTED)) == ACCENTED && Latin1Record(ACCENTED) == Done([1] + [0xE9]);
    assert Utf8Length(ACCENTED) == 2 by { assert ACCENTED[1..] == []; }
    var grown := out + [1, 0xE9];
    assert grown == out + ([1] + [0xE9]) && grown[..|out|] == out && grown[|out|..] == [1, 0xE9];
    assert Insert(grown, |out|, 0) == out + [0, 1, 0xE9];
  }

  /** A registry of one packet with such a text is not written as its table. */
  lemma AccentedRegistryIsNotATable<M(!new)>(texts: Texts<M>, packet: Packet<M>)
    requires texts.Valid() && packet.definition.enumData == [EnumPackage("", [EnumString(ACCENTED)])]
    requires Head(texts, packet).Done? && Tail(packet.definition).Done?
    ensures Table(texts, [packet]).Done? && Serialize(texts, [packet]) != Table(texts, [packet])
  {
    hide Head, Tail, Serialize, Texts.Valid;
    var value, package := EnumString(ACCENTED), packet.definition.enumData[0];
    AccentIsMisplaced(texts, []);
    assert package.values[1..] == [] && packet.definition.enumData[1..] == [] && [packet][1..] == [];
    assert EnumValuesRecord(texts, []) == Done([]) && PackagesRecord(texts, []) == Done([]);
    assert EnumValuesRecord(texts, package.values).Done?;
    assert Latin1Record("").Done? && EnumHead(package).Done?;
    assert PackageRecord(texts, package).Done?;
    assert PackagesRecord(texts, packet.definition.enumData).Done?;
    assert PacketRecord(texts, packet).Done?;
    assert Table(texts, []) == Done([]);
    assert value in package.values && !IsAscii(texts.Show(value)) && package in packet.definition.enumData;
    assert !PlainPackages(texts, [packet][0].definition.enumData);
    WritesTheTable(texts, [packet]);
  }

  lemma AtTheEnd<T>(out: seq<T>, record: seq<T>)
    ensures HasAt(out + record, |out|, record)
  {
  }

  lemma {:induction false} ValuesReadBack<M(!new)>(texts: Texts<M>, bytes: seq<byte>, off: nat, values: seq<EnumValue>)
    requires EnumValuesRecord(texts, values).Done? && HasAt(bytes, off, EnumValuesRecord(texts, values).value)
    requires forall v :: v in values ==> Readable(texts, v)
    ensures EnumValuesAt(texts, bytes, off, |values|) == Done((values, off + |EnumValuesRecord(texts, values).value|))
    decreases |values|
  {
    hide EnumRecord, EnumValueAt, Readable, HasAt;
    if values != [] {
      var first, rest := EnumRecord(texts, values[0]).value, EnumValuesRecord(texts, values[1..]).value;
      HasAtConcat(bytes, off, first, rest);
      ValueReadsBack(texts, bytes, off, values[0]);
      ValuesReadBack(texts, bytes, off + |first|, values[1..]);
      assert [values[0]] + values[1..] == values;
    } else {
      assert off <= |bytes| by { InBounds(bytes, off, EnumValuesRecord(texts, values).value); }
    }
  }

  lemma InBounds<T>(s: seq<T>, off: nat, piece: seq<T>)
    requires HasAt(s, off, piece)
    ensures off + |piece| <= |s|
  {
  }

  predicate ReadablePackages<M(!new)>(texts: Texts<M>, packages: seq<EnumPackage>) {
    forall package, v :: package in packages && v in package.values ==> Readable(texts, v)
  }

  lemma PackageReadsBack<M(!new)>(texts: Texts<M>, bytes: seq<byte>, off: nat, package: EnumPackage)
    requires PackageRecord(texts, package).Done? && HasAt(bytes, off, PackageRecord(texts, package).value)
    requires forall v :: v in package.values ==> Readable(texts, v)
    ensures EnumAt(texts, bytes, off) == Done((package, off + |PackageRecord(texts, package).value|))
  {
    hide EnumValuesRecord, EnumValuesAt, Readable, HasAt, Latin1At;
    var name, values := Latin1Record(package.name).value, EnumValuesRecord(texts, package.values).value;
    var count := [|package.values| as byte];
    assert PackageRecord(texts, package).value == (name + count) + values;
    HasAtConcat(bytes, off, name + count, values);
    HasAtConcat(bytes, off, name, count);
    Latin1ReadsBack(bytes, off, package.name);
    HasAtElement(bytes, off + |name|, count, 0);
    InBounds(bytes, off + |name|, count);
    ValuesReadBack(texts, bytes, off + |name| + 1, package.values);
  }

  lemma {:induction false} PackagesReadBack<M(!new)>(texts: Texts<M>, bytes: seq<byte>, off: nat, packages: seq<EnumPackage>)
    requires PackagesRecord(texts, packages).Done? && HasAt(bytes, off, PackagesRecord(texts, packages).value)
    requires ReadablePackages(texts, packages)
    ensures EnumsAt(texts, bytes, off, |packages|) == Done((packages, off + |PackagesRecord(texts, packages).value|))
    decreases |packages|
  {
    hide PackageRecord, EnumAt, Readable, HasAt;
    InBounds(bytes, off, PackagesRecord(texts, packages).value);
    if packages != [] {
      var first, rest := PackageRecord(texts, packages[0]).value, PackagesRecord(texts, packages[1..]).value;
      HasAtConcat(bytes, off, first, rest);
      PackageReadsBack(texts, bytes, off, packages[0]);
      PackagesReadBack(texts, bytes, off + |first|, packages[1..]);
      assert [packages[0]] + packages[1..] == packages;
    }
  }

  lemma VarintReadsBack(bytes: seq<byte>, off: nat, value: u64)
    requires HasAt(bytes, off, Varint.Encode(value))
    ensures off <= |bytes| && VarintAt(bytes, off) == Done((value, off + |Varint.Encode(value)|))
  {
    hide Varint.Encode, Varint.Read;
    Varint.ReadOfEncode(bytes, off, value);
  }

  lemma {:induction false} VarintsReadBack(bytes: seq<byte>, off: nat, values: seq<u64>)
    requires HasAt(bytes, off, Varint.EncodeAll(values))
    ensures VarintsAt(bytes, off, |values|) == Done((values, off + |Varint.EncodeAll(values)|))
    decreases |values|
  {
    hide Varint.Encode, VarintAt, HasAt;
    InBounds(bytes, off, Varint.EncodeAll(values));
    if values != [] {
      HasAtConcat(bytes, off, Varint.Encode(values[0]), Varint.EncodeAll(values[1..]));
      VarintReadsBack(bytes, off, values[0]);
      VarintsReadBack(bytes, off + |Varint.Encode(values[0])|, values[1..]);
      assert [values[0]] + values[1..] == values;
    }
  }

  lemma {:induction false} TypesReadBack(bytes: seq<byte>, off: nat, kinds: seq<PacketType>)
    requires HasAt(bytes, off, TypeCodes(kinds))
    ensures TypesAt(bytes, off, |kinds|) == Done((kinds, off + |kinds|))
    decreases |kinds|
  {
    hide HasAt;
    InBounds(bytes, off, TypeCodes(kinds));
    if kinds != [] {
      assert TypeCodes(kinds) == [TypeCode(kinds[0])] + TypeCodes(kinds[1..]);
      HasAtConcat(bytes, off, [TypeCode(kinds[0])], TypeCodes(kinds[1..]));
      HasAtElement(bytes, off, TypeCodes(kinds), 0);
      TypesReadBack(bytes, off + 1, kinds[1..]);
      assert TypeOf(TypeCode(kinds[0])) == Done(kinds[0]);
      assert [kinds[0]] + kinds[1..] == kinds;
    }
  }

  /** The definition has the shape that its flag announces, as every builder makes it. */
  predicate Built<M>(packet: Packet<M>) {
    packet.isObject == packet.definition.packetType.ObjectType?
  }

  lemma FlagsReadBack<M>(packet: Packet<M>)
    ensures Has(Flags(packet), 0x80) == packet.dontSpread && Has(Flags(packet), 0x20) == packet.isObject
    ensures Has(Flags(packet), 0x10) == packet.autoFlatten && Has(Flags(packet), 0x08) == packet.definition.gzipCompression
    ensures Has(Flags(packet), 0x04) == packet.rereference
  {
  }

  lemma HeadReadsBack<M(!new)>(texts: Texts<M>, bytes: seq<byte>, off: nat, packet: Packet<M>)
    requires texts.Valid() && Head(texts, packet).Done? && HasAt(bytes, off, Head(texts, packet).value)
    ensures HeadAt(texts, bytes, off)
         == Done((Prefix(packet.tag, Flags(packet), packet.metadata, packet.definition.dataBatching, |packet.definition.enumData|),
                  off + |Head(texts, packet).value|))
  {
    hide HasAt, Latin1At, Flags, VarintAt, Varint.Encode;
    var tag, json := Latin1Record(packet.tag).value, texts.write(packet.metadata).value;
    var length, last := Varint.Encode(|json|), [packet.definition.dataBatching as byte, |packet.definition.enumData| as byte];
    HasAtConcat(bytes, off, tag, [Flags(packet)] + (length + (json + last)));
    Latin1ReadsBack(bytes, off, packet.tag);
    var o1 := off + |tag|;
    HasAtConcat(bytes, o1, [Flags(packet)], length + (json + last));
    HasAtElement(bytes, o1, [Flags(packet)], 0);
    HasAtConcat(bytes, o1 + 1, length, json + last);
    VarintReadsBack(bytes, o1 + 1, |json|);
    var o2 := o1 + 1 + |length|;
    HasAtConcat(bytes, o2, json, last);
    Slice(bytes, o2, json);
    HasAtElement(bytes, o2 + |json|, last, 0);
    HasAtElement(bytes, o2 + |json|, last, 1);
    InBounds(bytes, o2 + |json|, last);
  }

  lemma Slice(bytes: seq<byte>, off: nat, piece: seq<byte>)
    requires HasAt(bytes, off, piece)
    ensures off <= |bytes| && TakeAt(bytes, off, |piece|) == Done((piece, off + |piece|))
  {
  }

  lemma TailReadsBack(bytes: seq<byte>, off: nat, definition: PacketDef)
    requires Tail(definition).Done? && HasAt(bytes, off, Tail(definition).value)
    ensures off <= |bytes| && TailAt(bytes, off, definition.packetType.ObjectType?)
         == Done((Shape(definition.packetType, definition.dataMin, definition.dataMax), off + |Tail(definition).value|))
  {
    hide HasAt, VarintAt, Varint.Encode, VarintsAt, TypesAt, Varint.EncodeAll, TypeCodes;
    InBounds(bytes, off, Tail(definition).value);
    match definition.packetType
    case SingleType(kind) =>
      var max, min, code := Varint.Encode(definition.dataMax.limit), Varint.Encode(definition.dataMin.limit), [TypeCode(kind)];
      HasAtConcat(bytes, off, max, min + code);
      VarintReadsBack(bytes, off, definition.dataMax.limit);
      HasAtConcat(bytes, off + |max|, min, code);
      VarintReadsBack(bytes, off + |max|, definition.dataMin.limit);
      HasAtElement(bytes, off + |max| + |min|, code, 0);
      InBounds(bytes, off + |max| + |min|, code);
      assert TypeOf(TypeCode(kind)) == Done(kind);
    case ObjectType(kinds) =>
      var maxes, mins, codes := Varint.EncodeAll(definition.dataMax.limits), Varint.EncodeAll(definition.dataMin.limits), TypeCodes(kinds);
      HasAtConcat(bytes, off, [|kinds| as byte], maxes + (mins + codes));
      HasAtElement(bytes, off, [|kinds| as byte], 0);
      HasAtConcat(bytes, off + 1, maxes, mins + codes);
      VarintsReadBack(bytes, off + 1, definition.dataMax.limits);
      HasAtConcat(bytes, off + 1 + |maxes|, mins, codes);
      VarintsReadBack(bytes, off + 1 + |maxes|, definition.dataMin.limits);
      TypesReadBack(bytes, off + 1 + |maxes| + |mins|, kinds);
  }

  /** What is transmitted of a packet; the rest takes its default. */
  function Restored<M>(packet: Packet<M>): Packet<M> {
    packet.(definition := packet.definition.(maxBatchSize := 10), rateLimit := 0, enabled := true)
  }

  /** A record is self-delimiting: it is read back wherever it stands, and the cursor stops right behind it. */
  lemma PacketReadsBack<M(!new)>(texts: Texts<M>, bytes: seq<byte>, off: nat, packet: Packet<M>)
    requires texts.Valid() && Built(packet) && ReadablePackages(texts, packet.definition.enumData)
    requires PacketRecord(texts, packet).Done? && HasAt(bytes, off, PacketRecord(texts, packet).value)
    ensures off <= |bytes| && PacketAt(texts, bytes, off) == Done((Restored(packet), off + |PacketRecord(texts, packet).value|))
  {
    hide HasAt, Head, Tail, PackagesRecord, HeadAt, TailAt, EnumsAt, Has, Flags, ReadablePackages;
    var head, enums, tail := Head(texts, packet).value, PackagesRecord(texts, packet.definition.enumData).value, Tail(packet.definition).value;
    InBounds(bytes, off, PacketRecord(texts, packet).value);
    HasAtConcat(bytes, off, head, enums + tail);
    HasAtConcat(bytes, off + |head|, enums, tail);
    HeadReadsBack(texts, bytes, off, packet);
    PackagesReadBack(texts, bytes, off + |head|, packet.definition.enumData);
    TailReadsBack(bytes, off + |head| + |enums|, packet.definition);
    FlagsReadBack(packet);
  }

  function RestoredAll<M>(packets: seq<Packet<M>>): (r: seq<Packet<M>>)
    ensures |r| == |packets| && forall i :: 0 <= i < |r| ==> r[i] == Restored(packets[i])
  {
    seq(|packets|, i requires 0 <= i < |packets| => Restored(packets[i]))
  }

  ghost predicate Transmissible<M(!new)>(texts: Texts<M>, packets: seq<Packet<M>>) {
    forall i :: 0 <= i < |packets| ==> Built(packets[i]) && ReadablePackages(texts, packets[i].definition.enumData)
  }

  lemma {:induction false} PacketsReadBack<M(!new)>(texts: Texts<M>, bytes: seq<byte>, off: nat, packets: seq<Packet<M>>)
    requires texts.Valid() && Transmissible(texts, packets)
    requires Table(texts, packets).Done? && off <= |bytes| && bytes[off..] == Table(texts, packets).value
    ensures PacketsAt(texts, bytes, off) == Done(RestoredAll(packets))
    decreases |packets|
  {
    hide PacketRecord, PacketAt, Built, ReadablePackages, Restored, Texts.Valid, HasAt, RestoredAll;
    if packets == [] {
      assert RestoredAll(packets) == [];
    } else {
      var first, rest := PacketRecord(texts, packets[0]).value, Table(texts, packets[1..]).value;
      FirstRecord(bytes, off, first, rest);
      PacketReadsBack(texts, bytes, off, packets[0]);
      assert Transmissible(texts, packets[1..]) by {
        assert forall i :: 0 <= i < |packets[1..]| ==> packets[1..][i] == packets[i + 1];
      }
      PacketsReadBack(texts, bytes, off + |first|, packets[1..]);
      RestoredFirst(packets);
    }
  }

  lemma FirstRecord(bytes: seq<byte>, off: nat, first: seq<byte>, rest: seq<byte>)
    requires off <= |bytes| && bytes[off..] == first + rest
    ensures HasAt(bytes, off, first) && off + |first| <= |bytes| && bytes[off + |first|..] == rest
  {
    assert bytes[off..][..|first|] == first && bytes[off..][|first|..] == rest;
  }

  lemma RestoredFirst<M>(packets: seq<Packet<M>>)
    requires packets != []
    ensures RestoredAll(packets) == [Restored(packets[0])] + RestoredAll(packets[1..])
  {
  }

  /**
   * For every registry whose enum text is ASCII: what it serializes to is read back as the same packets in the same
   * order, with everything that is transmitted, and so under the same keys.
   */
  lemma RegistryRoundTrip<M(!new)>(texts: Texts<M>, packets: seq<Packet<M>>)
    requires texts.Valid() && Registrable(packets) && Transmissible(texts, packets)
    requires PlainTable(texts, packets) && Serialize(texts, packets).Done?
    ensures Deserialize(texts, Serialize(texts, packets).value) == Done(RestoredAll(packets))
  {
    hide Table, PlainTable, Serialize, PacketsAt, Texts.Valid, Transmissible;
    WritesTheTable(texts, packets);
    var bytes := Serialize(texts, packets).value;
    assert bytes[0..] == bytes;
    PacketsReadBack(texts, bytes, 0, packets);
  }
}
