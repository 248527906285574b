/** The round trip of whole packets, with DEFLATE and its size budget in between. */
module PacketRoundTrip {
  import opened Primitives
  import opened Schema
  import opened Codec
  import opened CodecAgreement
  import opened CodecRoundTrip
  import opened SizeLimit
  import Varint
  import Hex
  import Integers
  import Huffman
  import Strings

  lemma {:induction false} ChunksLength(p: Platform, kind: PacketType, vals: seq<SonicValue>)
    requires p.Valid() && Width(kind) > 0 && EncodeChunks(p, kind, vals).Ok?
    ensures |EncodeChunks(p, kind, vals).value| == Width(kind) * |vals|
  {
    hide p.Valid(), ToChunk, FromChunk;
    if vals != [] {
      ChunkRoundTrip(p, kind, vals[0]);
      ChunksLength(p, kind, vals[1..]);
      assert Width(kind) * |vals| == Width(kind) + Width(kind) * |vals[1..]|;
    }
  }

  lemma {:induction false} VarintsLength(kind: PacketType, vals: seq<SonicValue>, previous: i64)
    requires IsVarKind(kind) && EncodeVarints(kind, vals, previous).Ok?
    ensures |EncodeVarints(kind, vals, previous).value| <= 10 * |vals|
    decreases |vals|
  {
    hide Varint.Encode;
    if vals != [] {
      var here := ToVarint(kind, vals[0], previous).value;
      Varint.EncodeReserve(here.0);
      VarintsLength(kind, vals[1..], here.1);
    }
  }

  lemma {:induction false} EnumsLength(p: Platform, package: EnumPackage, vals: seq<SonicValue>)
    requires EncodeEnums(p, package, vals).Ok?
    ensures |EncodeEnums(p, package, vals).value| == |vals|
  {
    if vals != [] {
      EnumsLength(p, package, vals[1..]);
    }
  }

  /** A payload of at most `max` values is never longer than the limit computed from the schema. */
  lemma PayloadWithinLimit(p: Platform, kind: PacketType, value: SonicValue, enums: Option<EnumPackage>, max: u64)
    requires p.Valid() && EncodeType(p, kind, value, enums).Ok?
    requires SentCount(kind, value) <= max && EncodedSizeLimit(kind, max).Some?
    ensures |EncodeType(p, kind, value, enums).value| <= EncodedSizeLimit(kind, max).value
  {
    hide EncodeChunks, EncodeVarints, EncodeEnums, Hex.Decode, Huffman.WellFormed;
    var vals := Items(value);
    match kind
    case NoneType | Raw | Reserved16 | Hex | StringsAscii | StringsUtf16 =>
    case ByteType | UByteType | Shorts | UShorts | Floats | Doubles =>
      ChunksLength(p, kind, vals);
    case VarInt | UVarInt | Deltas =>
      VarintsLength(kind, vals, 0);
    case Booleans =>
      assert |EncodeType(p, kind, value, enums).value| == CeilDiv(|vals|, 8);
    case Enums =>
      EnumsLength(p, enums.value, vals);
  }

  /** Honest traffic below the global ceiling is never refused for its inflated size. */
  lemma HonestPayloadInflates(p: Platform, packet: PacketDef, value: SonicValue)
    requires p.Valid() && packet.packetType.SingleType? && packet.dataMax.SingleLimit?
    requires EncodeType(p, packet.packetType.kind, value, Get(packet.enumData, 0)).Ok?
    requires SentCount(packet.packetType.kind, value) <= packet.dataMax.limit
    requires |EncodeType(p, packet.packetType.kind, value, Get(packet.enumData, 0)).value| <= MAX_DECOMPRESSED_SIZE
    ensures |EncodeType(p, packet.packetType.kind, value, Get(packet.enumData, 0)).value| <= InflationLimit(packet, false)
  {
    hide EncodeType, Huffman.WellFormed;
    if EncodedSizeLimit(packet.packetType.kind, packet.dataMax.limit).Some? {
      PayloadWithinLimit(p, packet.packetType.kind, value, Get(packet.enumData, 0), packet.dataMax.limit);
    }
  }

  /** The definition has one limit for a single value, or one for every field. */
  predicate ShapesMatch(packet: PacketDef) {
    match (packet.packetType, packet.dataMin, packet.dataMax)
    case (SingleType(_), SingleLimit(_), SingleLimit(_)) => true
    case (ObjectType(kinds), ObjectLimit(mins), ObjectLimit(maxes)) => |kinds| == |mins| == |maxes|
    case _ => false
  }

  /** What the sender can check before it sends: sizes of vectors, and for compressed packets the count and the ceiling. */
  ghost predicate Sendable(p: Platform, packet: PacketDef, value: SonicValue) {
    && ShapesMatch(packet)
    && (packet.packetType.SingleType? ==> Allocatable(value))
    && (packet.packetType.ObjectType? && value.Array? ==> FieldsAllocatable(value.items))
    && match Payload(p, packet, value)
       case Err(_) => false
       case Ok(payload) =>
         && |payload| < ADDRESSABLE
         && (Compressed(packet) ==>
               |payload| <= MAX_DECOMPRESSED_SIZE && SentCount(packet.packetType.kind, value) <= packet.dataMax.limit)
  }

  /** The encoding before compression. */
  function Payload(p: Platform, packet: PacketDef, value: SonicValue): Result<seq<byte>> {
    EncodePacket(p, packet.(gzipCompression := false), value)
  }

  function NormalPacket(p: Platform, packet: PacketDef, value: SonicValue): SonicValue
    requires ShapesMatch(packet)
    requires packet.packetType.ObjectType? ==> value.Array? && |value.items| == |packet.packetType.kinds|
  {
    match packet.packetType
    case SingleType(kind) => Normal(p, kind, value, packet.dataMax.limit, Get(packet.enumData, 0))
    case ObjectType(kinds) => Array(NormalFields(p, kinds, value.items, packet.dataMax.limits, packet.enumData, 0))
  }

  ghost predicate SentPacketAccepted(packet: PacketDef, value: SonicValue)
    requires ShapesMatch(packet)
    requires packet.packetType.ObjectType? ==> value.Array? && |value.items| == |packet.packetType.kinds|
  {
    match packet.packetType
    case SingleType(kind) => SentAccepted(kind, value, packet.dataMin.limit, packet.dataMax.limit)
    case ObjectType(kinds) => SentFieldsAccepted(kinds, value.items, packet.dataMin.limits, packet.dataMax.limits)
  }

  /** Inflating what was compressed gives the payload back, within the budget of the schema. */
  lemma PayloadComesBack(p: Platform, packet: PacketDef, value: SonicValue)
    requires p.Valid() && Sendable(p, packet, value)
    ensures EncodePacket(p, packet, value).Ok?
    ensures Inflated(p, packet, EncodePacket(p, packet, value).value) == Payload(p, packet, value)
  {
    hide EncodeType, EncodeFields, Huffman.WellFormed;
    if Compressed(packet) {
      HonestPayloadInflates(p, packet, value);
    }
  }

  /**
   * For every schema and every value that encodes: the packet decodes to the normal form of the value, unless a vector
   * cannot hold the booleans that the schema announces, which is a panic; and it passes validation if and only if the
   * numbers of values sent meet the limits of the schema.
   */
  lemma RoundTrip(p: Platform, packet: PacketDef, value: SonicValue)
    requires p.Valid() && Sendable(p, packet, value)
    ensures var bytes := EncodePacket(p, packet, value);
            && bytes.Ok?
            && (packet.packetType.ObjectType? ==> value.Array? && |value.items| == |packet.packetType.kinds|)
            && DecodePacket(p, packet, bytes.value) == (if RoomForPacket(packet) then Ok(NormalPacket(p, packet, value)) else Err(Panic))
            && (ValidatePacket(p, packet, bytes.value).Ok? <==> SentPacketAccepted(packet, value))
  {
    hide EncodeType, EncodeFields, DecodeType, DecodeFields, ValidateType, ValidateFields, Normal, SentAccepted, Huffman.WellFormed, HasAt,
      Allocatable, Inflated, RoomFor, RoomForAll;
    PayloadComesBack(p, packet, value);
    var payload := Payload(p, packet, value).value;
    match packet.packetType
    case SingleType(kind) =>
      SectorRoundTrip(p, kind, value, packet.dataMax.limit, Get(packet.enumData, 0));
      SentSectorAccepted(p, kind, value, packet.dataMin.limit, packet.dataMax.limit, Get(packet.enumData, 0));
    case ObjectType(kinds) =>
      WholeIsAtStart(payload);
      FieldsRoundTrip(p, kinds, value.items, packet.dataMax.limits, packet.enumData, 0, payload, 0);
      SentFieldsAreAccepted(p, kinds, value.items, packet.dataMin.limits, packet.dataMax.limits, packet.enumData, 0, payload, 0);
  }

  lemma WholeIsAtStart<T>(s: seq<T>)
    ensures HasAt(s, 0, s)
  {
  }

  // ---- when the normal form is the value itself

  /** An enum value that is looked up exactly, and within the first 256 values of its package. */
  predicate NamedExactly(p: Platform, package: EnumPackage, item: SonicValue) {
    match p.EnumFromSonic(item)
    case Err(_) => false
    case Ok(wanted) =>
      match p.Position(package.values, wanted)
      case None => false
      case Some(i) => package.values[i % 256] == wanted && !item.I64? && !item.U64? && !item.F32?
  }

  /** What an element must be like for the wire to carry it in full. */
  predicate ElementInFull(p: Platform, kind: PacketType, item: SonicValue) {
    match kind
    case ByteType | Shorts | VarInt => item.I64? && Integers.InI32(item.i)
    case UByteType | UShorts | UVarInt => item.U64?
    case Deltas => item.I64?
    case Floats => item.F32? && p.floats.decode32(p.floats.encode32(item.f)) == item.f
    case Doubles => item.F64? && p.floats.decode64(p.floats.encode64(item.d)) == item.d
    case _ => true
  }

  /**
   * Numbers that the wire carries in full, booleans in the announced number, lower-case text without plus signs, enum
   * values that are found exactly; and lists, where a list is what comes back.
   */
  predicate CarriedInFull(p: Platform, kind: PacketType, value: SonicValue, cap: u64, enums: Option<EnumPackage>) {
    match kind
    case NoneType => value == Undefined
    case Raw | Reserved16 => true
    case Hex => value.String? && Hex.LowerCase(value.s) == value.s && '+' !in value.s
    case _ => value.Array? && ListInFull(p, kind, value.items, cap, enums)
  }

  predicate ListInFull(p: Platform, kind: PacketType, items: seq<SonicValue>, cap: u64, enums: Option<EnumPackage>) {
    && (forall i :: 0 <= i < |items| ==> ElementInFull(p, kind, items[i]))
    && (kind.Deltas? ==> Integers.StepsFitI32(0, IntegersOf(items)))
    && (kind.Booleans? ==> |items| == cap)
    && (kind.Enums? ==> enums.Some? && forall i :: 0 <= i < |items| ==> NamedExactly(p, enums.value, items[i]))
  }

  lemma ElementIsNormal(p: Platform, kind: PacketType, item: SonicValue)
    requires kind.ByteType? || kind.Shorts? || kind.VarInt? || kind.UByteType? || kind.UShorts? || kind.UVarInt? || kind.Floats? || kind.Doubles?
    ensures NormalElement(p, kind, item) == item <==> ElementInFull(p, kind, item)
  {
  }

  lemma DeltasAreNormal(items: seq<SonicValue>)
    ensures AsI64Values(Integers.RunningSums(0, Integers.Differences(0, IntegersOf(items)))) == items
       <==> (forall i :: 0 <= i < |items| ==> items[i].I64?) && Integers.StepsFitI32(0, IntegersOf(items))
  {
    hide Integers.StepsFitI32, Integers.RunningSums, Integers.Differences;
    var numbers := IntegersOf(items);
    var sums := Integers.RunningSums(0, Integers.Differences(0, numbers));
    Integers.DeltasExact(0, numbers);
    Integers.SumsAreWords(0, Integers.Differences(0, numbers));
    if forall i :: 0 <= i < |items| ==> items[i].I64? {
      assert AsI64Values(numbers) == items;
      if AsI64Values(sums) == items {
        assert forall i :: 0 <= i < |items| ==> sums[i] == AsI64Values(sums)[i].i;
        assert sums == numbers;
      }
    } else {
      var i :| 0 <= i < |items| && !items[i].I64?;
      assert AsI64Values(sums)[i] != items[i];
    }
  }

  lemma EnumIsNormal(p: Platform, package: EnumPackage, item: SonicValue)
    requires p.EnumFromSonic(item).Ok? && p.Position(package.values, p.EnumFromSonic(item).value).Some?
    ensures NormalEnum(p, package, item) == item <==> NamedExactly(p, package, item)
  {
  }

  lemma {:induction false} EncodedEnumsAreFound(p: Platform, package: EnumPackage, vals: seq<SonicValue>)
    requires EncodeEnums(p, package, vals).Ok?
    ensures forall i :: 0 <= i < |vals| ==> p.EnumFromSonic(vals[i]).Ok? && p.Position(package.values, p.EnumFromSonic(vals[i]).value).Some?
  {
    hide Platform.EnumFromSonic, Platform.Position;
    if vals != [] {
      EncodedEnumsAreFound(p, package, vals[1..]);
      assert forall i :: 1 <= i < |vals| ==> vals[i] == vals[1..][i - 1];
    }
  }

  /** What encodes comes back unchanged if and only if the wire carries it in full. */
  lemma NormalIsIdentity(p: Platform, kind: PacketType, value: SonicValue, cap: u64, enums: Option<EnumPackage>)
    requires EncodeType(p, kind, value, enums).Ok?
    ensures Normal(p, kind, value, cap, enums) == value <==> CarriedInFull(p, kind, value, cap, enums)
  {
    hide EncodeChunks, EncodeVarints, EncodeEnums, Strings.EncodeAscii, Integers.StepsFitI32, Integers.RunningSums, Integers.Differences,
      NormalElement, ElementInFull, NormalEnum, NamedExactly, Hex.LowerCase, Hex.Decode;
    var vals := Items(value);
    match kind
    case NoneType | Raw | Reserved16 =>
    case Hex => Hex.EncodeOfDecode(value.s); HexIsNormal(value.s);
    case Deltas =>
      DeltasAreNormal(vals);
      assert forall item :: ElementInFull(p, kind, item) <==> item.I64? by { DeltaElements(p); }
    case ByteType | UByteType | Shorts | UShorts | Floats | Doubles | VarInt | UVarInt =>
      forall i | 0 <= i < |vals| ensures NormalElement(p, kind, vals[i]) == vals[i] <==> ElementInFull(p, kind, vals[i]) {
        ElementIsNormal(p, kind, vals[i]);
      }
      assert NormalElements(p, kind, vals) == vals <==> forall i :: 0 <= i < |vals| ==> NormalElement(p, kind, vals[i]) == vals[i];
    case Booleans =>
      OtherElements(p, kind);
      assert |vals| == cap ==> PaddedBools(vals, cap) == vals;
    case StringsAscii | StringsUtf16 =>
      OtherElements(p, kind);
    case Enums =>
      OtherElements(p, kind);
      EncodedEnumsAreFound(p, enums.value, vals);
      forall i | 0 <= i < |vals| ensures NormalEnum(p, enums.value, vals[i]) == vals[i] <==> NamedExactly(p, enums.value, vals[i]) {
        EnumIsNormal(p, enums.value, vals[i]);
      }
      assert NormalEnums(p, enums.value, vals) == vals <==> forall i :: 0 <= i < |vals| ==> NormalEnum(p, enums.value, vals[i]) == vals[i];
  }

  lemma DeltaElements(p: Platform)
    ensures forall item :: ElementInFull(p, Deltas, item) <==> item.I64?
  {
  }

  lemma OtherElements(p: Platform, kind: PacketType)
    requires kind.Booleans? || kind.StringsAscii? || kind.StringsUtf16? || kind.Enums?
    ensures forall item :: ElementInFull(p, kind, item)
  {
  }

  lemma HexIsNormal(text: string)
    requires Hex.Decode(text).Ok? && (Hex.Encode(Hex.Decode(text).value) == Hex.LowerCase(text) <==> '+' !in text)
    ensures Hex.Encode(Hex.Decode(text).value) == text <==> Hex.LowerCase(text) == text && '+' !in text
  {
    if Hex.Encode(Hex.Decode(text).value) == text {
      Hex.EncodedIsLowerCase(Hex.Decode(text).value);
    }
  }
}
