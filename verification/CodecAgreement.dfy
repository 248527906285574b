/** Validation and decoding accept the same bytes, apart from the limits on counts. */
module CodecAgreement {
  import opened Primitives
  import opened Schema
  import opened Codec
  import Varint
  import Huffman
  import Strings

  /** Slices stay below the size at which a count of their bits would overflow a 64-bit word. */
  const ADDRESSABLE: nat := 0x2000_0000_0000_0000

  predicate Within(count: nat, min: u64, max: u64) {
    min <= count <= max
  }

  /** The limit that validation puts on a sector, given what it decodes to. */
  ghost predicate CountAccepted(kind: PacketType, bytes: seq<byte>, decoded: SonicValue, min: u64, max: u64) {
    match kind
    case NoneType | Raw | Reserved16 => true
    case Hex => Within(|bytes|, min, max)
    case Booleans => CeilDiv(min, 8) <= |bytes| <= CeilDiv(max, 8)
    case _ => decoded.Array? && Within(|decoded.items|, min, max)
  }

  lemma {:induction false} ChunkCount(p: Platform, kind: PacketType, bytes: seq<byte>)
    requires Width(kind) > 0
    ensures |DecodeChunks(p, kind, bytes)| == |bytes| / Width(kind)
    decreases |bytes|
  {
    if |bytes| >= Width(kind) {
      ChunkCount(p, kind, bytes[Width(kind)..]);
      if Width(kind) == 1 {
      } else if Width(kind) == 2 {
      } else if Width(kind) == 4 {
      } else {
        assert Width(kind) == 8;
      }
    }
  }

  lemma {:induction false} CountingVarints(kind: PacketType, bytes: seq<byte>, off: nat, previous: i64, count: nat, max: u64)
    requires off <= |bytes| && count <= max
    ensures var decoded := DecodeVarints(kind, bytes, off, previous);
            var counted := CountVarints(bytes, off, count, max);
            if decoded.Ok? && count + |decoded.value| <= max then counted == Ok(count + |decoded.value|) else counted.Err?
    decreases |bytes| - off
  {
    hide Varint.Read;
    if off < |bytes| {
      var n := Varint.Read(bytes, off);
      if n.Ok? && count + 1 <= max {
        CountingVarints(kind, bytes, n.value.1, FromVarint(kind, n.value.0, previous).1, count + 1, max);
      }
    }
  }

  lemma {:induction false} SkippingChars(bytes: seq<byte>, off: nat, count: nat)
    requires off <= |bytes|
    ensures SkipChars(bytes, off, count) ==
            match Strings.ReadChars(bytes, off, count)
            case Ok((_, next)) => Ok(next)
            case Err(e) => Err(e)
    decreases count
  {
    hide Varint.Read;
    if count > 0 {
      var code := Varint.Read(bytes, off);
      if code.Ok? {
        SkippingChars(bytes, code.value.1, count - 1);
      }
    }
  }

  lemma {:induction false} CountingStrings(bytes: seq<byte>, off: nat, count: nat, max: u64)
    requires off <= |bytes| && count <= max
    ensures var decoded := Strings.ReadStrings(bytes, off);
            var counted := CountStrings(bytes, off, count, max);
            if decoded.Ok? && count + |decoded.value| <= max then counted == Ok(count + |decoded.value|) else counted.Err?
    decreases |bytes| - off
  {
    hide Varint.Read, Strings.ReadChars, SkipChars;
    if off < |bytes| {
      var chars := Varint.Read(bytes, off);
      if chars.Ok? {
        SkippingChars(bytes, chars.value.1, chars.value.0);
        var text := Strings.ReadChars(bytes, chars.value.1, chars.value.0);
        if text.Ok? && count + 1 <= max {
          CountingStrings(bytes, text.value.1, count + 1, max);
        }
      }
    }
  }

  lemma {:induction false} SummingLengths(bytes: seq<byte>, off: nat, count: nat, total: nat)
    requires off <= |bytes| && total < U64_LIMIT
    ensures var lengths := Strings.ReadMany(bytes, off, count);
            var summed := SumLengths(bytes, off, count, total);
            if lengths.Ok? && total + Strings.Sum(lengths.value.0) < U64_LIMIT
            then summed == Ok((total + Strings.Sum(lengths.value.0), lengths.value.1)) else summed.Err?
    decreases count
  {
    hide Varint.Read;
    if count > 0 {
      var n := Varint.Read(bytes, off);
      if n.Ok? && total + n.value.0 < U64_LIMIT {
        SummingLengths(bytes, n.value.1, count - 1, total + n.value.0);
      }
    }
  }

  /** Every character takes at least one bit, so a text is at most eight times as long as its bytes. */
  lemma TextFitsBytes(p: Platform, bytes: seq<byte>, length: nat)
    requires p.Valid() && Huffman.Inverse(p.table, bytes, length).Some?
    ensures length <= 8 * |bytes|
  {
    var text := Huffman.Inverse(p.table, bytes, length).value;
    AtLeastOneBit(p.table, text);
  }

  lemma {:induction false} AtLeastOneBit(table: Huffman.Table, text: string)
    requires Huffman.WellFormed(table) && Huffman.EncodeBits(table, text).Some?
    ensures |Huffman.EncodeBits(table, text).value| >= |text|
  {
    if text != "" {
      AtLeastOneBit(table, text[1..]);
      var code := Huffman.FindCharacter(table, text[0]).value;
      var i :| 0 <= i < |table| && table[i] == Huffman.Entry(code, text[0]);
      assert code != [];
    }
  }

  /** The separate length walk of validation never rejects what decodes: no overflow, no truncation, no mismatch. */
  lemma AsciiAgrees(p: Platform, bytes: seq<byte>, min: u64, max: u64)
    requires p.Valid() && |bytes| < ADDRESSABLE
    ensures var decoded := Strings.DecodeAscii(p.table, bytes);
            ValidateAscii(p, bytes, min, max).Ok? <==> decoded.Ok? && Within(|decoded.value|, min, max)
  {
    hide Varint.Read, Strings.Split, Strings.ReadMany, Strings.Cut, SumLengths, Huffman.WellFormed;
    var count := Varint.Read(bytes, 0);
    if count.Ok? {
      SummingLengths(bytes, count.value.1, count.value.0, 0);
      var lengths := Strings.ReadMany(bytes, count.value.1, count.value.0);
      if lengths.Ok? {
        Strings.AcceptedAscii(p.table, bytes);
        var rest, expected := bytes[lengths.value.1..], Strings.Sum(lengths.value.0);
        var text := Huffman.Inverse(p.table, rest, expected);
        if Strings.DecodeAscii(p.table, bytes).Ok? {
          TextFitsBytes(p, rest, expected);
          Strings.JoinOfSplit(text.value, lengths.value.0);
          assert CeilDiv(expected, 8) <= |rest|;
        }
      }
    }
  }

  lemma {:induction false} EnumIndexesAgree(package: EnumPackage, bytes: seq<byte>)
    ensures DecodeEnums(package, bytes).Ok? <==> forall i :: 0 <= i < |bytes| ==> bytes[i] < |package.values|
    ensures DecodeEnums(package, bytes).Ok? ==> |DecodeEnums(package, bytes).value| == |bytes|
  {
    if bytes != [] {
      EnumIndexesAgree(package, bytes[1..]);
      if forall i :: 0 <= i < |bytes| ==> bytes[i] < |package.values| {
        forall i | 0 <= i < |bytes[1..]| ensures bytes[1..][i] < |package.values| {
          assert bytes[1..][i] == bytes[i + 1];
        }
      }
      if bytes[0] < |package.values| && forall i :: 0 <= i < |bytes[1..]| ==> bytes[1..][i] < |package.values| {
        forall i | 0 <= i < |bytes| ensures bytes[i] < |package.values| {
          assert i > 0 ==> bytes[i] == bytes[1..][i - 1];
        }
      }
    }
  }

  /**
   * A sector is valid, with a boolean maximum that a vector can hold, exactly when it decodes and what it decodes to
   * respects the limits. A valid sector that does not decode is a panic.
   */
  lemma SectorAgreement(p: Platform, kind: PacketType, bytes: seq<byte>, min: u64, max: u64, enums: Option<EnumPackage>)
    requires p.Valid() && |bytes| < ADDRESSABLE
    ensures var decoded := DecodeType(p, kind, bytes, max, enums);
            && (ValidateType(p, kind, bytes, min, max, enums).Ok? && RoomFor(kind, max) <==>
                decoded.Ok? && CountAccepted(kind, bytes, decoded.value, min, max))
            && (!RoomFor(kind, max) ==> decoded == Err(Panic))
  {
    hide DecodeChunks, DecodeVarints, CountVarints, Strings.DecodeAscii, ValidateAscii, Strings.ReadStrings, CountStrings, Huffman.WellFormed;
    match kind
    case NoneType | Raw | Reserved16 | Hex | Booleans =>
    case ByteType | UByteType | Shorts | UShorts | Floats | Doubles =>
      ChunkCount(p, kind, bytes);
    case VarInt | UVarInt | Deltas =>
      CountingVarints(kind, bytes, 0, 0, 0, max);
    case StringsAscii =>
      AsciiAgrees(p, bytes, min, max);
    case StringsUtf16 =>
      CountingStrings(bytes, 0, 0, max);
    case Enums =>
      if enums.Some? {
        EnumIndexesAgree(enums.value, bytes);
      }
  }

  /** A boolean sector has exactly `max` values, whatever its bytes, if a vector can hold so many, and panics otherwise. */
  lemma BooleansAreExact(p: Platform, bytes: seq<byte>, max: u64)
    ensures match DecodeType(p, Booleans, bytes, max, None)
            case Ok(decoded) => RoomFor(Booleans, max) && decoded.Array? && |decoded.items| == max
            case Err(e) => !RoomFor(Booleans, max) && e == Panic
  {
  }

  /** The limits hold field by field for what the sectors of an object decode to. */
  ghost predicate FieldsAccepted(kinds: seq<PacketType>, mins: seq<u64>, maxes: seq<u64>, bytes: seq<byte>, off: nat, fields: seq<SonicValue>)
    requires |kinds| == |mins| == |maxes| == |fields| && off <= |bytes|
  {
    kinds == [] ||
    match ReadSector(bytes, off)
    case Err(_) => false
    case Ok((sector, next)) =>
      && CountAccepted(kinds[0], sector, fields[0], mins[0], maxes[0])
      && FieldsAccepted(kinds[1..], mins[1..], maxes[1..], bytes, next, fields[1..])
  }

  lemma {:induction false} DecodedFieldCount(p: Platform, kinds: seq<PacketType>, caps: seq<u64>, enums: seq<EnumPackage>, index: nat,
                                             bytes: seq<byte>, off: nat)
    requires |kinds| == |caps| && off <= |bytes|
    ensures var decoded := DecodeFields(p, kinds, caps, enums, index, bytes, off);
            decoded.Ok? ==> |decoded.value| == |kinds|
  {
    hide DecodeType, ReadSector;
    if kinds != [] {
      var sector := ReadSector(bytes, off);
      if sector.Ok? {
        DecodedFieldCount(p, kinds[1..], caps[1..], enums, PackageFor(kinds[0], enums, index).1, bytes, sector.value.1);
      }
    }
  }

  lemma RoomSplit(kinds: seq<PacketType>, caps: seq<u64>)
    requires |kinds| == |caps|
    ensures RoomForAll(kinds, caps) <==> kinds == [] || (RoomFor(kinds[0], caps[0]) && RoomForAll(kinds[1..], caps[1..]))
  {
    hide RoomFor;
    if kinds != [] && RoomFor(kinds[0], caps[0]) && RoomForAll(kinds[1..], caps[1..]) {
      forall i | 0 <= i < |kinds| ensures RoomFor(kinds[i], caps[i]) {
        if i > 0 {
          assert RoomFor(kinds[1..][i - 1], caps[1..][i - 1]);
        }
      }
    }
  }

  lemma {:induction false} FieldsAgreement(p: Platform, kinds: seq<PacketType>, mins: seq<u64>, maxes: seq<u64>, enums: seq<EnumPackage>,
                                           index: nat, bytes: seq<byte>, off: nat)
    requires p.Valid() && |bytes| < ADDRESSABLE && |kinds| == |mins| == |maxes| && off <= |bytes|
    ensures var decoded := DecodeFields(p, kinds, maxes, enums, index, bytes, off);
            && (decoded.Ok? ==> |decoded.value| == |kinds|)
            && (ValidateFields(p, kinds, mins, maxes, enums, index, bytes, off).Ok? && RoomForAll(kinds, maxes) <==>
                decoded.Ok? && FieldsAccepted(kinds, mins, maxes, bytes, off, decoded.value))
            && (ValidateFields(p, kinds, mins, maxes, enums, index, bytes, off).Ok? && !RoomForAll(kinds, maxes) ==> decoded == Err(Panic))
    decreases |kinds|
  {
    hide DecodeType, ValidateType, ReadSector, CountAccepted, RoomFor, RoomForAll;
    DecodedFieldCount(p, kinds, maxes, enums, index, bytes, off);
    RoomSplit(kinds, maxes);
    if kinds != [] {
      var sector := ReadSector(bytes, off);
      if sector.Ok? {
        var package := PackageFor(kinds[0], enums, index);
        SectorAgreement(p, kinds[0], sector.value.0, mins[0], maxes[0], package.0);
        FieldsAgreement(p, kinds[1..], mins[1..], maxes[1..], enums, package.1, bytes, sector.value.1);
        var field := DecodeType(p, kinds[0], sector.value.0, maxes[0], package.0);
        var rest := DecodeFields(p, kinds[1..], maxes[1..], enums, package.1, bytes, sector.value.1);
        if field.Ok? && rest.Ok? {
          assert ([field.value] + rest.value)[1..] == rest.value;
        }
      }
    }
  }

  /** The limits of a definition, applied to what a whole packet decodes to. */
  ghost predicate PacketAccepted(p: Platform, packet: PacketDef, bytes: seq<byte>, decoded: SonicValue) {
    var data := Inflated(p, packet, bytes);
    match (packet.packetType, packet.dataMin, packet.dataMax)
    case (SingleType(kind), SingleLimit(min), SingleLimit(max)) =>
      data.Ok? && CountAccepted(kind, data.value, decoded, min, max)
    case (ObjectType(kinds), ObjectLimit(mins), ObjectLimit(maxes)) =>
      && data.Ok? && |kinds| == |mins| == |maxes| && decoded.Array? && |decoded.items| == |kinds|
      && FieldsAccepted(kinds, mins, maxes, data.value, 0, decoded.items)
    case _ => false
  }

  /**
   * For arbitrary bytes: `validate_packet` accepts them, and a vector can hold the boolean maxima, if and only if
   * `decode_packet` succeeds on them and every counted sector holds between min and max values. Without room for the
   * booleans, decoding what was accepted is a panic.
   */
  lemma PacketAgreement(p: Platform, packet: PacketDef, bytes: seq<byte>)
    requires p.Valid() && |bytes| < ADDRESSABLE
    ensures var decoded := DecodePacket(p, packet, bytes);
            && (ValidatePacket(p, packet, bytes).Ok? && RoomForPacket(packet) <==>
                decoded.Ok? && PacketAccepted(p, packet, bytes, decoded.value))
            && (ValidatePacket(p, packet, bytes).Ok? && !RoomForPacket(packet) ==> decoded == Err(Panic))
  {
    hide RoomFor, RoomForAll, DecodeType, ValidateType, DecodeFields, ValidateFields, FieldsAccepted, CountAccepted, Huffman.WellFormed;
    var data := Inflated(p, packet, bytes);
    if data.Ok? {
      assert |data.value| < ADDRESSABLE;
      match (packet.packetType, packet.dataMin, packet.dataMax)
      case (SingleType(kind), SingleLimit(min), SingleLimit(max)) =>
        SectorAgreement(p, kind, data.value, min, max, Get(packet.enumData, 0));
      case (ObjectType(kinds), ObjectLimit(mins), ObjectLimit(maxes)) =>
        if |kinds| == |mins| == |maxes| {
          FieldsAgreement(p, kinds, mins, maxes, packet.enumData, 0, data.value, 0);
        }
      case _ =>
    }
  }

  /** Accepted packets decode, on which the receiver relies between its two calls, if and only if there is room for their booleans. */
  lemma ValidPacketsDecodeIff(p: Platform, packet: PacketDef, bytes: seq<byte>)
    requires p.Valid() && |bytes| < ADDRESSABLE && ValidatePacket(p, packet, bytes).Ok?
    ensures DecodePacket(p, packet, bytes).Ok? <==> RoomForPacket(packet)
    ensures DecodePacket(p, packet, bytes).Err? ==> DecodePacket(p, packet, bytes) == Err(Panic)
  {
    PacketAgreement(p, packet, bytes);
  }

  /** A packet of booleans without a minimum, and with one more than a vector can hold as maximum. */
  const CROWD: PacketDef := PacketDef(SingleType(Booleans), SingleLimit(0), SingleLimit(0x400_0000_0000_0000), 0, 0, false, [])

  /** The empty payload passes its validation, and decoding it is a panic. */
  lemma EmptyCrowdPanics(p: Platform)
    requires p.Valid()
    ensures ValidatePacket(p, CROWD, []).Ok? && DecodePacket(p, CROWD, []) == Err(Panic)
    ensures RoomForPacket(CROWD.(dataMax := SingleLimit(CROWD.dataMax.limit - 1)))
  {
  }
}
