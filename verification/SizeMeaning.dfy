/** The limits on inflated packets are the least that let every packet of a schema through, and sixteen mebibytes otherwise. */
module SizeMeaning {
  import opened Primitives
  import opened Schema
  import opened Codec
  import opened CodecMeaning
  import opened PacketRoundTrip
  import opened SizeLimit
  import Hex
  import Huffman
  import Strings
  import Varint

  function Repeated(item: SonicValue, n: nat): (items: seq<SonicValue>)
    ensures |items| == n && forall k :: 0 <= k < n ==> items[k] == item
  {
    seq(n, _ => item)
  }

  function Zeros(n: nat): (text: string)
    ensures |text| == n && forall k :: 0 <= k < n ==> text[k] == '0'
  {
    seq(n, _ => '0')
  }

  /** The longest value of `n` counted values; signed varints never need as much as the limit allows. */
  function Longest(kind: PacketType, n: nat): SonicValue {
    match kind
    case Raw => Bytes(seq(n, _ => 0))
    case Hex => String(Zeros(2 * n))
    case ByteType | Shorts => Array(Repeated(I64(0), n))
    case UByteType | UShorts => Array(Repeated(U64(0), n))
    case UVarInt => Array(Repeated(U64(0xFFFF_FFFF_FFFF_FFFF), n))
    case Floats => Array(Repeated(F32(0), n))
    case Doubles => Array(Repeated(F64(0), n))
    case Booleans => Array(Repeated(Bool(false), n))
    case Enums => Array(Repeated(Null, n))
    case _ => Undefined
  }

  const NULLS: EnumPackage := EnumPackage("", [EnumNull])

  lemma {:induction false} FullVarints(n: nat)
    ensures EncodeVarints(UVarInt, Repeated(U64(0xFFFF_FFFF_FFFF_FFFF), n), 0).Ok?
    ensures |EncodeVarints(UVarInt, Repeated(U64(0xFFFF_FFFF_FFFF_FFFF), n), 0).value| == 10 * n
  {
    if n > 0 {
      var items := Repeated(U64(0xFFFF_FFFF_FFFF_FFFF), n);
      assert items[1..] == Repeated(U64(0xFFFF_FFFF_FFFF_FFFF), n - 1);
      FullVarints(n - 1);
      TenBytes();
    }
  }

  lemma TenBytes()
    ensures |Varint.Encode(0xFFFF_FFFF_FFFF_FFFF)| == 10
  {
    Varint.Pow128Values();
    Varint.EncodeWidth(0xFFFF_FFFF_FFFF_FFFF, 10);
    Varint.EncodeWidth(0xFFFF_FFFF_FFFF_FFFF, 9);
    assert Varint.Pow128(10) == 128 * Varint.Pow128(9);
  }

  lemma ZerosEncode(n: nat)
    ensures Hex.Decode(Zeros(2 * n)).Ok? && |Hex.Decode(Zeros(2 * n)).value| == n
  {
    hide Hex.Decode;
    HexIsText(Zeros(2 * n));
  }

  lemma LongestEncodes(p: Platform, kind: PacketType, n: nat)
    requires p.Valid() && !kind.StringsAscii? && !kind.StringsUtf16? && !kind.Reserved16? && !kind.VarInt? && !kind.Deltas?
    ensures EncodeType(p, kind, Longest(kind, n), Some(NULLS)).Ok?
  {
    hide EncodeType, Hex.Decode, Huffman.WellFormed;
    var value := Longest(kind, n);
    var items := if value.Array? then value.items else [value];
    EncodesIff(p, kind, value, items, Some(NULLS));
    assert Denotes(I64(0), 0) && Denotes(U64(0), 0) && Denotes(U64(0xFFFF_FFFF_FFFF_FFFF), 0xFFFF_FFFF_FFFF_FFFF);
    assert NamedAt(p, NULLS, Null, 0);
    assert Takes(ByteType, 0) && Takes(Shorts, 0) && Takes(UByteType, 0) && Takes(UShorts, 0) && Takes(UVarInt, 0xFFFF_FFFF_FFFF_FFFF);
    assert IsTaken(ByteType, I64(0)) && IsTaken(Shorts, I64(0)) && IsTaken(UByteType, U64(0)) && IsTaken(UShorts, U64(0));
    assert IsTaken(UVarInt, U64(0xFFFF_FFFF_FFFF_FFFF));
  }

  /** Where there is a limit for `n` values, some value of `n` values needs all of it; signed varints are given as much as unsigned ones. */
  lemma LimitIsReached(p: Platform, kind: PacketType, n: u64)
    requires p.Valid() && EncodedSizeLimit(kind, n).Some?
    ensures kind.VarInt? || kind.Deltas? ==> EncodedSizeLimit(kind, n) == EncodedSizeLimit(UVarInt, n)
    ensures !kind.VarInt? && !kind.Deltas? ==>
              var bytes := EncodeType(p, kind, Longest(kind, n), Some(NULLS));
              bytes.Ok? && |bytes.value| == EncodedSizeLimit(kind, n).value
  {
    hide EncodeChunks, EncodeVarints, EncodeEnums, Hex.Decode, Huffman.WellFormed;
    if !kind.VarInt? && !kind.Deltas? {
      LongestEncodes(p, kind, n);
      var items := Repeated(Null, n);
      match kind
      case ByteType | UByteType | Shorts | UShorts | Floats | Doubles => ChunksLength(p, kind, Longest(kind, n).items);
      case UVarInt => FullVarints(n);
      case Hex => ZerosEncode(n);
      case Enums => EnumsLength(p, NULLS, items);
      case _ =>
    }
  }

  /** One text, or one document, can be longer than any number, so that there is no limit for their kinds. */
  lemma TextHasNoLimit(p: Platform, kind: PacketType, n: u64, length: nat)
    requires kind.StringsUtf16? || kind.Reserved16?
    ensures EncodedSizeLimit(kind, n).None?
    ensures exists value :: |Items(value)| == 1 && EncodeType(p, kind, value, None).Ok? && |EncodeType(p, kind, value, None).value| >= length
  {
    if kind.Reserved16? {
      var value := Bytes(seq(length, _ => 0));
      assert EncodeType(p, kind, value, None) == Ok(value.bytes) && |Items(value)| == 1;
    } else {
      var value := String(Zeros(length));
      assert Items(value) == [value];
      var texts := ToStrings([value]);
      assert texts.Ok? && [value][0] == String(texts.value[0]) && texts.value == [value.s];
      LongText(value.s);
    }
  }

  lemma {:induction false} LongCodes(codes: seq<nat>)
    ensures |Varint.EncodeAll(codes)| >= |codes|
  {
    if codes != [] {
      LongCodes(codes[1..]);
    }
  }

  lemma LongText(text: string)
    ensures |Strings.EncodeCodepoints([text])| >= |text|
  {
    LongCodes(Strings.Codes(text));
    assert [text][1..] == [];
  }

  /** A packet inflates if and only if its payload is within the limit of its schema, if there is one, and within sixteen mebibytes. */
  lemma InflatesIff(deflate: Deflate, packet: PacketDef, bytes: seq<byte>, batched: bool)
    ensures match DecompressForPacket(deflate, packet, bytes, batched)
            case Ok(data) =>
              && deflate.inflate(bytes) == Some(data) && |data| <= 0x100_0000
              && (SchemaSizeLimit(packet, batched).Some? ==> |data| <= SchemaSizeLimit(packet, batched).value)
            case Err(e) =>
              deflate.inflate(bytes).None? || |deflate.inflate(bytes).value| > 0x100_0000
              || (SchemaSizeLimit(packet, batched).Some? && |deflate.inflate(bytes).value| > SchemaSizeLimit(packet, batched).value)
  {
  }

  /** The limit of a schema is that of its kind, or, for a batch, ten bytes more for each of the payloads that it may hold. */
  lemma SchemaLimitIs(packet: PacketDef, batched: bool, payload: nat)
    requires packet.packetType.SingleType? && packet.dataMax.SingleLimit?
    requires EncodedSizeLimit(packet.packetType.kind, packet.dataMax.limit) == Some(payload)
    ensures !batched ==> SchemaSizeLimit(packet, batched) == Some(payload)
    ensures batched && 0 < packet.maxBatchSize && (payload + 10) * packet.maxBatchSize < U64_LIMIT ==>
              SchemaSizeLimit(packet, batched) == Some((payload + 10) * packet.maxBatchSize)
    ensures batched && (packet.maxBatchSize <= 0 || (payload + 10) * packet.maxBatchSize >= U64_LIMIT) ==> SchemaSizeLimit(packet, batched).None?
  {
    if batched && packet.maxBatchSize > 0 {
      assert (payload + 10) * packet.maxBatchSize >= (payload + 10) * 1;
    }
  }
}
