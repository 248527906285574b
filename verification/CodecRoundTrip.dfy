/** What comes out of decoding an encoded packet, for every schema and every value that can be encoded. */
module CodecRoundTrip {
  import opened Primitives
  import opened Integers
  import opened Schema
  import opened Codec
  import opened CodecAgreement
  import Varint
  import Bits
  import Huffman
  import Strings
  import Hex

  /** The single-precision number that is sent for a value. */
  function Single(p: Platform, v: SonicValue): Float32 {
    match v case F32(f) => f case F64(d) => p.floats.narrow(d) case _ => 0
  }

  function Double(p: Platform, v: SonicValue): Float64 {
    match v case F64(d) => d case F32(f) => p.floats.widen(f) case _ => 0
  }

  function IntegerOf(v: SonicValue): i64 {
    if Integer(v).Ok? then Integer(v).value else 0
  }

  function UnsignedOf(v: SonicValue): u64 {
    if Unsigned(v).Ok? then Unsigned(v).value else 0
  }

  /** What the receiver sees of one numeric element: 32 bits of an integer, a float after its own coding. */
  function NormalElement(p: Platform, kind: PacketType, v: SonicValue): SonicValue {
    match kind
    case ByteType | Shorts | VarInt => I64(AsI32(IntegerOf(v)))
    case UByteType | UShorts | UVarInt => U64(UnsignedOf(v))
    case Floats => F32(p.floats.decode32(p.floats.encode32(Single(p, v))))
    case Doubles => F64(p.floats.decode64(p.floats.encode64(Double(p, v))))
    case _ => v
  }

  function NormalElements(p: Platform, kind: PacketType, vals: seq<SonicValue>): (r: seq<SonicValue>)
    ensures |r| == |vals|
  {
    seq(|vals|, i requires 0 <= i < |vals| => NormalElement(p, kind, vals[i]))
  }

  function IntegersOf(vals: seq<SonicValue>): (r: seq<int>)
    ensures |r| == |vals|
  {
    seq(|vals|, i requires 0 <= i < |vals| => IntegerOf(vals[i]))
  }

  function AsI64Values(numbers: seq<int>): (r: seq<SonicValue>)
    ensures |r| == |numbers|
  {
    seq(|numbers|, i requires 0 <= i < |numbers| => I64(AsI64(numbers[i])))
  }

  /** The value at the announced index, which keeps its low eight bits only. */
  function NormalEnum(p: Platform, package: EnumPackage, v: SonicValue): SonicValue {
    match p.EnumFromSonic(v)
    case Err(_) => v
    case Ok(wanted) =>
      match p.Position(package.values, wanted)
      case None => v
      case Some(index) => EnumToSonic(package.values[index % 256])
  }

  function NormalEnums(p: Platform, package: EnumPackage, vals: seq<SonicValue>): (r: seq<SonicValue>)
    ensures |r| == |vals|
  {
    seq(|vals|, i requires 0 <= i < |vals| => NormalEnum(p, package, vals[i]))
  }

  /** Booleans are cut or padded with false to `cap` values. */
  function PaddedBools(vals: seq<SonicValue>, cap: u64): (r: seq<SonicValue>)
    ensures |r| == cap
  {
    seq(cap, i requires 0 <= i => if i < |vals| then vals[i] else Bool(false))
  }

  /** The value a receiver gets for `value`. */
  function Normal(p: Platform, kind: PacketType, value: SonicValue, cap: u64, enums: Option<EnumPackage>): SonicValue {
    var vals := Items(value);
    match kind
    case NoneType => Undefined
    case Raw | Reserved16 => value
    case ByteType | UByteType | Shorts | UShorts | Floats | Doubles | VarInt | UVarInt => Array(NormalElements(p, kind, vals))
    case Deltas => Array(AsI64Values(RunningSums(0, Differences(0, IntegersOf(vals)))))
    case Booleans => Array(PaddedBools(vals, cap))
    case StringsAscii | StringsUtf16 => Array(vals)
    case Hex => if value.String? && Hex.Decode(value.s).Ok? then String(Hex.Encode(Hex.Decode(value.s).value)) else value
    case Enums => if enums.Some? then Array(NormalEnums(p, enums.value, vals)) else value
  }

  /** The characters of all texts among the values. */
  function TextLength(vals: seq<SonicValue>): nat {
    if vals == [] then 0 else (if vals[0].String? then |vals[0].s| else 0) + TextLength(vals[1..])
  }

  /** A vector of values is no longer than vectors can be, and neither are its texts together. */
  predicate Allocatable(value: SonicValue) {
    Strings.STRING_SIZE * |Items(value)| <= MAX_ALLOCATION && TextLength(Items(value)) <= MAX_ALLOCATION
  }

  lemma {:induction false} JoinedTexts(vals: seq<SonicValue>)
    requires ToStrings(vals).Ok?
    ensures |Strings.Join(ToStrings(vals).value)| == TextLength(vals)
  {
    if vals != [] {
      JoinedTexts(vals[1..]);
      var texts := ToStrings(vals).value;
      assert texts[0] == vals[0].s && texts[1..] == ToStrings(vals[1..]).value;
    }
  }

  lemma AllocatableTexts(value: SonicValue)
    requires Allocatable(value) && ToStrings(Items(value)).Ok?
    ensures Strings.FitInMemory(ToStrings(Items(value)).value) && Strings.LengthsFit(ToStrings(Items(value)).value)
  {
    hide Strings.Join;
    JoinedTexts(Items(value));
    Strings.JoinedLengths(ToStrings(Items(value)).value);
  }

  lemma ChunkRoundTrip(p: Platform, kind: PacketType, v: SonicValue)
    requires p.Valid() && Width(kind) > 0 && ToChunk(p, kind, v).Ok?
    ensures |ToChunk(p, kind, v).value| == Width(kind)
    ensures FromChunk(p, kind, ToChunk(p, kind, v).value) == NormalElement(p, kind, v)
  {
    hide Huffman.WellFormed;
    match kind
    case ByteType | Shorts =>
      ZigzagInverse(Integer(v).value, 0);
    case _ =>
  }

  lemma {:induction false} ChunksRoundTrip(p: Platform, kind: PacketType, vals: seq<SonicValue>)
    requires p.Valid() && Width(kind) > 0 && EncodeChunks(p, kind, vals).Ok?
    ensures var bytes := EncodeChunks(p, kind, vals).value;
            |bytes| % Width(kind) == 0 && DecodeChunks(p, kind, bytes) == NormalElements(p, kind, vals)
    decreases |vals|
  {
    hide p.Valid(), ToChunk, FromChunk, NormalElement;
    if vals != [] {
      var chunk := ToChunk(p, kind, vals[0]).value;
      var rest := EncodeChunks(p, kind, vals[1..]).value;
      ChunkRoundTrip(p, kind, vals[0]);
      ChunksRoundTrip(p, kind, vals[1..]);
      assert (chunk + rest)[..Width(kind)] == chunk && (chunk + rest)[Width(kind)..] == rest;
      assert NormalElements(p, kind, vals) == [NormalElement(p, kind, vals[0])] + NormalElements(p, kind, vals[1..]);
      AddWidth(kind, |rest|);
    }
  }

  lemma AddWidth(kind: PacketType, n: nat)
    requires Width(kind) > 0 && n % Width(kind) == 0
    ensures (Width(kind) + n) % Width(kind) == 0
  {
    var w := Width(kind);
    if w == 1 {
    } else if w == 2 {
    } else if w == 4 {
    } else {
      assert w == 8;
    }
  }

  /** What the decoder makes of the numbers sent for `vals` after `sent`, when it has reached `got` itself. */
  function NormalVarints(p: Platform, kind: PacketType, vals: seq<SonicValue>, sent: i64, got: i64): (r: seq<SonicValue>)
    ensures |r| == |vals|
  {
    if kind.Deltas? then AsI64Values(RunningSums(got, Differences(sent, IntegersOf(vals)))) else NormalElements(p, kind, vals)
  }

  lemma DeltaStep(vals: seq<SonicValue>, number: i64, sent: i64, got: i64)
    requires vals != [] && Integer(vals[0]) == Ok(number)
    ensures var sum := AsI64(got + AsI32(AsI64(number - sent)));
            AsI64Values(RunningSums(got, Differences(sent, IntegersOf(vals)))) ==
            [I64(sum)] + AsI64Values(RunningSums(sum, Differences(number, IntegersOf(vals[1..]))))
  {
    hide AsI32;
    var numbers := IntegersOf(vals);
    assert numbers[1..] == IntegersOf(vals[1..]);
    var d := Differences(sent, numbers);
    assert d[0] == AsI64(number - sent) && d[1..] == Differences(number, numbers[1..]);
  }

  lemma VarintStep(p: Platform, kind: PacketType, vals: seq<SonicValue>, sent: i64, got: i64)
    requires IsVarKind(kind) && vals != [] && ToVarint(kind, vals[0], sent).Ok?
    ensures var here := ToVarint(kind, vals[0], sent).value;
            && here.0 < U64_LIMIT
            && var back := FromVarint(kind, here.0, got);
            NormalVarints(p, kind, vals, sent, got) == [back.0] + NormalVarints(p, kind, vals[1..], here.1, back.1)
  {
    hide AsI32, ZigzagEncode, ZigzagDecode, RunningSums, Differences;
    var here := ToVarint(kind, vals[0], sent).value;
    if kind.Deltas? {
      ZigzagInverse(AsI64(here.1 - sent), 0);
      DeltaStep(vals, here.1, sent, got);
    } else {
      ZigzagInverse(here.1, 0);
      assert NormalElements(p, kind, vals) == [NormalElement(p, kind, vals[0])] + NormalElements(p, kind, vals[1..]);
    }
  }

  lemma {:induction false} VarintsRoundTrip(p: Platform, kind: PacketType, vals: seq<SonicValue>, bytes: seq<byte>, off: nat, sent: i64, got: i64)
    requires IsVarKind(kind) && EncodeVarints(kind, vals, sent).Ok?
    requires HasAt(bytes, off, EncodeVarints(kind, vals, sent).value) && off + |EncodeVarints(kind, vals, sent).value| == |bytes|
    ensures DecodeVarints(kind, bytes, off, got) == Ok(NormalVarints(p, kind, vals, sent, got))
    decreases |vals|
  {
    hide Varint.Read, Varint.Encode, HasAt, ToVarint, FromVarint, NormalVarints;
    if vals == [] {
      assert NormalVarints(p, kind, vals, sent, got) == [];
    } else {
      var here := ToVarint(kind, vals[0], sent).value;
      var rest := EncodeVarints(kind, vals[1..], here.1).value;
      VarintStep(p, kind, vals, sent, got);
      HasAtConcat(bytes, off, Varint.Encode(here.0), rest);
      HasAtFits(bytes, off, Varint.Encode(here.0));
      Varint.ReadOfEncode(bytes, off, here.0);
      VarintsRoundTrip(p, kind, vals[1..], bytes, off + |Varint.Encode(here.0)|, here.1, FromVarint(kind, here.0, got).1);
    }
  }

  lemma HasAtFits<T>(s: seq<T>, off: nat, piece: seq<T>)
    requires HasAt(s, off, piece)
    ensures off + |piece| <= |s|
  {
  }

  lemma {:induction false} EnumsRoundTrip(p: Platform, package: EnumPackage, vals: seq<SonicValue>)
    requires EncodeEnums(p, package, vals).Ok?
    ensures DecodeEnums(package, EncodeEnums(p, package, vals).value) == Ok(NormalEnums(p, package, vals))
    decreases |vals|
  {
    if vals != [] {
      EnumsRoundTrip(p, package, vals[1..]);
      var index := p.Position(package.values, p.EnumFromSonic(vals[0]).value).value;
      var rest := EncodeEnums(p, package, vals[1..]).value;
      assert ([index % 256] + rest)[1..] == rest;
      assert NormalEnums(p, package, vals) == [NormalEnum(p, package, vals[0])] + NormalEnums(p, package, vals[1..]);
    }
  }

  lemma StringsAreBack(vals: seq<SonicValue>)
    requires ToStrings(vals).Ok?
    ensures FromStrings(ToStrings(vals).value) == vals
  {
  }

  /** What is encoded decodes to its normal form, if a vector can hold it; nothing is asked of counts or of the size of integers. */
  lemma SectorRoundTrip(p: Platform, kind: PacketType, value: SonicValue, cap: u64, enums: Option<EnumPackage>)
    requires p.Valid() && Allocatable(value) && EncodeType(p, kind, value, enums).Ok?
    ensures DecodeType(p, kind, EncodeType(p, kind, value, enums).value, cap, enums)
         == if RoomFor(kind, cap) then Ok(Normal(p, kind, value, cap, enums)) else Err(Panic)
  {
    hide EncodeChunks, DecodeChunks, EncodeVarints, DecodeVarints, EncodeEnums, DecodeEnums, Strings.EncodeAscii, Strings.DecodeAscii,
      Strings.EncodeCodepoints, Strings.ReadStrings, Hex.Decode, Hex.Encode, Huffman.WellFormed;
    var vals := Items(value);
    match kind
    case NoneType | Raw | Reserved16 | Hex =>
    case ByteType | UByteType | Shorts | UShorts | Floats | Doubles =>
      ChunksRoundTrip(p, kind, vals);
    case VarInt | UVarInt | Deltas =>
      var bytes := EncodeVarints(kind, vals, 0).value;
      assert HasAt(bytes, 0, bytes);
      VarintsRoundTrip(p, kind, vals, bytes, 0, 0, 0);
    case Booleans =>
      var bools := ToBools(vals).value;
      Bits.UnpackOfPack(bools, cap);
      assert FromBools(Bits.Unpack(Bits.Pack(bools), cap)) == PaddedBools(vals, cap);
    case StringsAscii =>
      AllocatableTexts(value);
      Strings.AsciiRoundTrip(p.table, ToStrings(vals).value);
      StringsAreBack(vals);
    case StringsUtf16 =>
      AllocatableTexts(value);
      Strings.CodepointsRoundTrip(ToStrings(vals).value);
      StringsAreBack(vals);
    case Enums =>
      EnumsRoundTrip(p, enums.value, vals);
  }

  /** How many values the schema counts in a value to be sent. */
  function SentCount(kind: PacketType, value: SonicValue): nat {
    match kind
    case NoneType => 0
    case Raw | Reserved16 => if value.Bytes? then |value.bytes| else 0
    case Hex => if value.String? then |value.s| / 2 else 0
    case _ => |Items(value)|
  }

  /** The limits as validation applies them to what was sent: booleans are counted in whole bytes. */
  ghost predicate SentAccepted(kind: PacketType, value: SonicValue, min: u64, max: u64) {
    match kind
    case NoneType | Raw | Reserved16 => true
    case Booleans => CeilDiv(min, 8) <= CeilDiv(SentCount(kind, value), 8) <= CeilDiv(max, 8)
    case _ => Within(SentCount(kind, value), min, max)
  }

  /** The receiver accepts an encoded sector exactly when the number of values sent meets the limits. */
  lemma SentSectorAccepted(p: Platform, kind: PacketType, value: SonicValue, min: u64, max: u64, enums: Option<EnumPackage>)
    requires p.Valid() && Allocatable(value) && EncodeType(p, kind, value, enums).Ok?
    requires |EncodeType(p, kind, value, enums).value| < ADDRESSABLE
    ensures ValidateType(p, kind, EncodeType(p, kind, value, enums).value, min, max, enums).Ok? <==> SentAccepted(kind, value, min, max)
  {
    var bytes := EncodeType(p, kind, value, enums).value;
    if !kind.Booleans? {
      SectorRoundTrip(p, kind, value, max, enums);
      SectorAgreement(p, kind, bytes, min, max, enums);
      assert CountAccepted(kind, bytes, Normal(p, kind, value, max, enums), min, max) <==> SentAccepted(kind, value, min, max) by {
        hide EncodeChunks, EncodeVarints, EncodeEnums, Strings.EncodeAscii, Strings.EncodeCodepoints, Hex.Encode, Huffman.WellFormed, DecodeType;
      }
    }
  }

  // ---- objects

  function NormalFields(p: Platform, kinds: seq<PacketType>, fields: seq<SonicValue>, caps: seq<u64>, enums: seq<EnumPackage>, index: nat): (r: seq<SonicValue>)
    requires |kinds| == |fields| == |caps|
    ensures |r| == |kinds|
  {
    if kinds == [] then []
    else
      var package := PackageFor(kinds[0], enums, index);
      [Normal(p, kinds[0], fields[0], caps[0], package.0)] + NormalFields(p, kinds[1..], fields[1..], caps[1..], enums, package.1)
  }

  ghost predicate FieldsAllocatable(fields: seq<SonicValue>) {
    forall i :: 0 <= i < |fields| ==> Allocatable(fields[i])
  }

  lemma SectorIsRead(bytes: seq<byte>, off: nat, data: seq<byte>)
    requires |data| < U64_LIMIT && HasAt(bytes, off, Varint.Encode(|data|) + data)
    ensures off < |bytes| && ReadSector(bytes, off) == Ok((data, off + |Varint.Encode(|data|) + data|))
  {
    hide Varint.Read, Varint.Encode;
    HasAtConcat(bytes, off, Varint.Encode(|data|), data);
    Varint.ReadOfEncode(bytes, off, |data|);
  }

  lemma {:induction false} FieldsRoundTrip(p: Platform, kinds: seq<PacketType>, fields: seq<SonicValue>, caps: seq<u64>,
                                           enums: seq<EnumPackage>, index: nat, bytes: seq<byte>, off: nat)
    requires p.Valid() && |kinds| == |fields| == |caps| && FieldsAllocatable(fields)
    requires |bytes| < ADDRESSABLE && EncodeFields(p, kinds, fields, enums, index).Ok?
    requires HasAt(bytes, off, EncodeFields(p, kinds, fields, enums, index).value)
             && off + |EncodeFields(p, kinds, fields, enums, index).value| == |bytes|
    ensures DecodeFields(p, kinds, caps, enums, index, bytes, off)
         == if RoomForAll(kinds, caps) then Ok(NormalFields(p, kinds, fields, caps, enums, index)) else Err(Panic)
    decreases |kinds|
  {
    hide Varint.Encode, HasAt, EncodeType, DecodeType, Normal, ReadSector, Allocatable, RoomFor, RoomForAll;
    RoomSplit(kinds, caps);
    if kinds != [] {
      var package := PackageFor(kinds[0], enums, index);
      var data := EncodeType(p, kinds[0], fields[0], package.0).value;
      var rest := EncodeFields(p, kinds[1..], fields[1..], enums, package.1).value;
      HasAtConcat(bytes, off, Varint.Encode(|data|) + data, rest);
      HasAtFits(bytes, off, Varint.Encode(|data|) + data);
      SectorIsRead(bytes, off, data);
      SectorRoundTrip(p, kinds[0], fields[0], caps[0], package.0);
      FieldsRoundTrip(p, kinds[1..], fields[1..], caps[1..], enums, package.1, bytes, off + |Varint.Encode(|data|) + data|);
    }
  }

  ghost predicate SentFieldsAccepted(kinds: seq<PacketType>, fields: seq<SonicValue>, mins: seq<u64>, maxes: seq<u64>)
    requires |kinds| == |fields| == |mins| == |maxes|
  {
    forall i :: 0 <= i < |kinds| ==> SentAccepted(kinds[i], fields[i], mins[i], maxes[i])
  }

  lemma SentFieldsSplit(kinds: seq<PacketType>, fields: seq<SonicValue>, mins: seq<u64>, maxes: seq<u64>)
    requires |kinds| == |fields| == |mins| == |maxes| > 0
    ensures SentFieldsAccepted(kinds, fields, mins, maxes) <==>
            SentAccepted(kinds[0], fields[0], mins[0], maxes[0]) && SentFieldsAccepted(kinds[1..], fields[1..], mins[1..], maxes[1..])
  {
    hide SentAccepted;
    if SentAccepted(kinds[0], fields[0], mins[0], maxes[0]) && SentFieldsAccepted(kinds[1..], fields[1..], mins[1..], maxes[1..]) {
      forall i | 0 <= i < |kinds| ensures SentAccepted(kinds[i], fields[i], mins[i], maxes[i]) {
        if i > 0 {
          assert SentAccepted(kinds[1..][i - 1], fields[1..][i - 1], mins[1..][i - 1], maxes[1..][i - 1]);
        }
      }
    }
  }

  lemma {:induction false} SentFieldsAreAccepted(p: Platform, kinds: seq<PacketType>, fields: seq<SonicValue>, mins: seq<u64>, maxes: seq<u64>,
                                                 enums: seq<EnumPackage>, index: nat, bytes: seq<byte>, off: nat)
    requires p.Valid() && |kinds| == |fields| == |mins| == |maxes| && FieldsAllocatable(fields)
    requires |bytes| < ADDRESSABLE && EncodeFields(p, kinds, fields, enums, index).Ok?
    requires HasAt(bytes, off, EncodeFields(p, kinds, fields, enums, index).value)
             && off + |EncodeFields(p, kinds, fields, enums, index).value| == |bytes|
    ensures ValidateFields(p, kinds, mins, maxes, enums, index, bytes, off).Ok? <==> SentFieldsAccepted(kinds, fields, mins, maxes)
    decreases |kinds|
  {
    hide Varint.Encode, HasAt, EncodeType, ValidateType, ReadSector, Allocatable, SentAccepted;
    if kinds != [] {
      var package := PackageFor(kinds[0], enums, index);
      var data := EncodeType(p, kinds[0], fields[0], package.0).value;
      var rest := EncodeFields(p, kinds[1..], fields[1..], enums, package.1).value;
      HasAtConcat(bytes, off, Varint.Encode(|data|) + data, rest);
      HasAtFits(bytes, off, Varint.Encode(|data|) + data);
      SectorIsRead(bytes, off, data);
      SentSectorAccepted(p, kinds[0], fields[0], mins[0], maxes[0], package.0);
      SentFieldsSplit(kinds, fields, mins, maxes);
      SentFieldsAreAccepted(p, kinds[1..], fields[1..], mins[1..], maxes[1..], enums, package.1, bytes, off + |Varint.Encode(|data|) + data|);
    }
  }
}
