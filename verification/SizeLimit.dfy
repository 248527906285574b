/** How much a compressed packet may inflate to (`compression/gzip.rs`). */
module SizeLimit {
  import opened Primitives
  import opened Schema

  const MAX_DECOMPRESSED_SIZE: nat := 16 * 1024 * 1024

  function CheckedMul(a: nat, b: nat): Option<nat> {
    if a * b < U64_LIMIT then Some(a * b) else None
  }

  function CheckedAdd(a: nat, b: nat): Option<nat> {
    if a + b < U64_LIMIT then Some(a + b) else None
  }

  /** The longest encoding of `values` values, where the kind bounds it. */
  function EncodedSizeLimit(kind: PacketType, values: u64): Option<nat> {
    match kind
    case NoneType => Some(0)
    case Raw | ByteType | UByteType | Enums | Hex => Some(values)
    case Shorts | UShorts => CheckedMul(values, 2)
    case VarInt | UVarInt | Deltas => CheckedMul(values, 10)
    case Floats => CheckedMul(values, 4)
    case Doubles => CheckedMul(values, 8)
    case Booleans => (match CheckedAdd(values, 7) case Some(v) => Some(v / 8) case None => None)
    case StringsAscii | StringsUtf16 | Reserved16 => None
  }

  /** The limit from the schema: one payload, or `max_batch_size` framed payloads. */
  function SchemaSizeLimit(packet: PacketDef, batched: bool): Option<nat> {
    if !packet.packetType.SingleType? || !packet.dataMax.SingleLimit? then None
    else match EncodedSizeLimit(packet.packetType.kind, packet.dataMax.limit)
      case None => None
      case Some(payload) =>
        if !batched then Some(payload)
        else if packet.maxBatchSize <= 0 then None
        else match CheckedAdd(payload, 10)
          case None => None
          case Some(framed) => CheckedMul(framed, packet.maxBatchSize)
  }

  function InflationLimit(packet: PacketDef, batched: bool): (limit: nat)
    ensures limit <= MAX_DECOMPRESSED_SIZE
  {
    match SchemaSizeLimit(packet, batched)
    case Some(size) => if size < MAX_DECOMPRESSED_SIZE then size else MAX_DECOMPRESSED_SIZE
    case None => MAX_DECOMPRESSED_SIZE
  }

  /** Inflates, and refuses output beyond the limit. */
  function DecompressForPacket(deflate: Deflate, packet: PacketDef, bytes: seq<byte>, batched: bool): Result<seq<byte>> {
    match deflate.inflate(bytes)
    case None => Err(InvalidData)
    case Some(data) => if |data| > InflationLimit(packet, batched) then Err(InvalidData) else Ok(data)
  }
}
