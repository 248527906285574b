/** Values and packet definitions (`value.rs`, `schema.rs`, `packet.rs`, `enums/enum_package.rs`). */
module Schema {
  import opened Primitives
  import opened Integers
  import Huffman

  type i64 = n: int | InI64(n)
  type u64 = n: int | 0 <= n < U64_LIMIT

  /** Floating-point numbers are carried as their bit patterns and never interpreted. */
  type Float32 = bits: nat | bits < 0x1_0000_0000
  type Float64 = bits: nat | bits < U64_LIMIT

  datatype SonicValue =
    | Null
    | Undefined
    | Bool(b: bool)
    | I64(i: i64)
    | U64(u: u64)
    | F32(f: Float32)
    | F64(d: Float64)
    | String(s: string)
    | Bytes(bytes: seq<byte>)
    | Array(items: seq<SonicValue>)
    | Object(entries: seq<Property>)

  datatype Property = Property(key: string, value: SonicValue)

  datatype EnumValue = EnumString(text: string) | EnumNumber(number: Float64) | EnumBool(flag: bool) | EnumUndefined | EnumNull

  datatype EnumPackage = EnumPackage(name: string, values: seq<EnumValue>)

  datatype PacketType =
    | NoneType | Raw | Reserved16 | ByteType | UByteType | Shorts | UShorts | VarInt | UVarInt | Deltas
    | Floats | Doubles | Booleans | StringsAscii | StringsUtf16 | Hex | Enums

  datatype SchemaType = SingleType(kind: PacketType) | ObjectType(kinds: seq<PacketType>)

  datatype SchemaLimit = SingleLimit(limit: u64) | ObjectLimit(limits: seq<u64>)

  /** The parts of a packet definition that the codec looks at. */
  datatype PacketDef = PacketDef(
    packetType: SchemaType,
    dataMin: SchemaLimit,
    dataMax: SchemaLimit,
    dataBatching: int,
    maxBatchSize: int,
    gzipCompression: bool,
    enumData: seq<EnumPackage>)

  /** Conversions of floating-point numbers, as functions on bit patterns. */
  datatype FloatCodec = FloatCodec(
    encode32: Float32 -> seq<byte>,
    decode32: seq<byte> -> Float32,
    encode64: Float64 -> seq<byte>,
    decode64: seq<byte> -> Float64,
    narrow: Float64 -> Float32,
    widen: Float32 -> Float64,
    fromInteger: int -> Float64,
    sameNumber: (Float64, Float64) -> bool)

  /** Raw DEFLATE: a compressor and an inflater that may reject its input. */
  datatype Deflate = Deflate(compress: seq<byte> -> seq<byte>, inflate: seq<byte> -> Option<seq<byte>>)

  /** What the codec takes from outside: the code table, floating point and DEFLATE. */
  datatype Platform = Platform(table: Huffman.Table, floats: FloatCodec, deflate: Deflate) {
    ghost predicate Valid() {
      && Huffman.WellFormed(table)
      && (forall x :: |floats.encode32(x)| == 4)
      && (forall x :: |floats.encode64(x)| == 8)
      && (forall bytes :: deflate.inflate(deflate.compress(bytes)) == Some(bytes))
    }

    function EnumFromSonic(value: SonicValue): Result<EnumValue> {
      match value
      case String(s) => Ok(EnumString(s))
      case I64(i) => Ok(EnumNumber(floats.fromInteger(i)))
      case U64(u) => Ok(EnumNumber(floats.fromInteger(u)))
      case F32(f) => Ok(EnumNumber(floats.widen(f)))
      case F64(d) => Ok(EnumNumber(d))
      case Bool(b) => Ok(EnumBool(b))
      case Undefined => Ok(EnumUndefined)
      case Null => Ok(EnumNull)
      case _ => Err(InvalidData)
    }

    predicate SameEnumValue(a: EnumValue, b: EnumValue) {
      match (a, b)
      case (EnumNumber(x), EnumNumber(y)) => floats.sameNumber(x, y)
      case _ => a == b
    }

    /** The index of the first equal value. */
    function Position(values: seq<EnumValue>, wanted: EnumValue): (r: Option<nat>)
      ensures r.Some? ==> r.value < |values| && SameEnumValue(values[r.value], wanted)
    {
      if values == [] then None
      else if SameEnumValue(values[0], wanted) then Some(0)
      else match Position(values[1..], wanted)
        case Some(i) => Some(i + 1)
        case None => None
    }
  }

  function EnumToSonic(value: EnumValue): SonicValue {
    match value
    case EnumString(s) => String(s)
    case EnumNumber(d) => F64(d)
    case EnumBool(b) => Bool(b)
    case EnumUndefined => Undefined
    case EnumNull => Null
  }

  /** `values()`: the elements of an array, or the value itself as the only element. */
  function Items(value: SonicValue): seq<SonicValue> {
    if value.Array? then value.items else [value]
  }

  function Integer(value: SonicValue): Result<i64> {
    match value
    case I64(i) => Ok(i)
    case U64(u) => if InI64(u) then Ok(u) else Err(InvalidData)
    case _ => Err(InvalidData)
  }

  function Unsigned(value: SonicValue): Result<u64> {
    match value
    case U64(u) => Ok(u)
    case I64(i) => if i >= 0 then Ok(i) else Err(InvalidData)
    case _ => Err(InvalidData)
  }

  function Get<T>(items: seq<T>, index: nat): Option<T> {
    if index < |items| then Some(items[index]) else None
  }
}
