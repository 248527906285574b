/** Batches of encoded payloads, each framed by its length (`batching/encode.rs`, `batching/decode.rs`, `codec/validate.rs`). */
module Batching {
  import opened Primitives
  import opened Schema
  import opened Codec
  import opened CodecRoundTrip
  import opened PacketRoundTrip
  import opened SizeLimit
  import Varint
  import Huffman

  /** A payload behind its length. */
  function Frame(payload: seq<byte>): seq<byte> {
    Varint.Encode(|payload|) + payload
  }

  function EncodeBatches(payloads: seq<seq<byte>>): seq<byte> {
    if payloads == [] then [] else Frame(payloads[0]) + EncodeBatches(payloads[1..])
  }

  /** Decoding from `off` on, `count` payloads in; a limit of zero means unlimited. */
  function DecodeBatchesFrom(bytes: seq<byte>, off: nat, limit: nat, count: nat): Result<seq<seq<byte>>>
    requires off <= |bytes|
    decreases |bytes| - off
  {
    if off == |bytes| then Ok([])
    else if limit > 0 && count >= limit then Err(InvalidData)
    else
      var length :- Varint.Read(bytes, off);
      var payload :- ReadExactAt(bytes, length.1, length.0);
      Prepend([payload], DecodeBatchesFrom(bytes, length.1 + length.0, limit, count + 1))
  }

  function DecodeBatchesLimited(bytes: seq<byte>, limit: nat): Result<seq<seq<byte>>> {
    DecodeBatchesFrom(bytes, 0, limit, 0)
  }

  /** No vector is longer than a 64-bit length can say. */
  predicate Vectors(payloads: seq<seq<byte>>) {
    forall i :: 0 <= i < |payloads| ==> |payloads[i]| < U64_LIMIT
  }

  lemma {:induction false} DecodeOfEncodeFrom(bytes: seq<byte>, off: nat, limit: nat, count: nat, payloads: seq<seq<byte>>)
    requires Vectors(payloads) && off <= |bytes| && bytes[off..] == EncodeBatches(payloads)
    requires limit > 0 ==> count <= limit
    ensures DecodeBatchesFrom(bytes, off, limit, count)
         == if limit > 0 && count + |payloads| > limit then Err(InvalidData) else Ok(payloads)
    decreases |payloads|
  {
    hide Varint.Encode, Varint.Read;
    if payloads != [] {
      var head, rest := payloads[0], payloads[1..];
      var prefix := Varint.Encode(|head|);
      assert bytes[off..] == prefix + head + EncodeBatches(rest);
      var next := off + |prefix|;
      assert HasAt(bytes, off, prefix) && HasAt(bytes, next, head) && bytes[next + |head|..] == EncodeBatches(rest) by {
        Framed(bytes, off, prefix, head, EncodeBatches(rest));
      }
      Varint.ReadOfEncode(bytes, off, |head|);
      assert off < |bytes|;
      if limit == 0 || count < limit {
        DecodeOfEncodeFrom(bytes, next + |head|, limit, count + 1, rest);
        assert [head] + rest == payloads;
      }
    }
  }

  lemma Framed(bytes: seq<byte>, off: nat, prefix: seq<byte>, head: seq<byte>, rest: seq<byte>)
    requires off <= |bytes| && bytes[off..] == prefix + head + rest
    ensures HasAt(bytes, off, prefix) && HasAt(bytes, off + |prefix|, head) && bytes[off + |prefix| + |head|..] == rest
  {
    var tail := bytes[off..];
    assert tail[..|prefix|] == prefix && tail[|prefix|..|prefix| + |head|] == head && tail[|prefix| + |head|..] == rest;
  }

  /** Decoding gives the payloads back if and only if there are no more than the limit; otherwise the batch is refused. */
  lemma DecodeOfEncode(payloads: seq<seq<byte>>, limit: nat)
    requires Vectors(payloads)
    ensures DecodeBatchesLimited(EncodeBatches(payloads), limit)
         == if limit > 0 && |payloads| > limit then Err(InvalidData) else Ok(payloads)
  {
    assert EncodeBatches(payloads)[0..] == EncodeBatches(payloads);
    DecodeOfEncodeFrom(EncodeBatches(payloads), 0, limit, 0, payloads);
  }

  /** The total length of the payloads with their shortest possible frames. */
  function FramedLength(payloads: seq<seq<byte>>): nat {
    if payloads == [] then 0 else 1 + |payloads[0]| + FramedLength(payloads[1..])
  }

  /** Whatever the bytes, an accepted batch keeps to the limit and its payloads do not overlap. */
  lemma {:induction false} DecodedWithin(bytes: seq<byte>, off: nat, limit: nat, count: nat)
    requires off <= |bytes| && (limit > 0 ==> count <= limit)
    ensures var r := DecodeBatchesFrom(bytes, off, limit, count);
            r.Ok? ==> (limit > 0 ==> count + |r.value| <= limit) && FramedLength(r.value) <= |bytes| - off
    decreases |bytes| - off
  {
    hide Varint.Read;
    var r := DecodeBatchesFrom(bytes, off, limit, count);
    if r.Ok? && off < |bytes| {
      var length := Varint.Read(bytes, off).value;
      DecodedWithin(bytes, length.1 + length.0, limit, count + 1);
      var rest := DecodeBatchesFrom(bytes, length.1 + length.0, limit, count + 1).value;
      assert r.value[1..] == rest;
    }
  }

  // ---- the size budget

  /** `n` payloads of at most `size` bytes take at most `size + 10` bytes each. */
  lemma {:induction false} BatchLength(payloads: seq<seq<byte>>, size: nat)
    requires forall i :: 0 <= i < |payloads| ==> |payloads[i]| <= size
    requires size < U64_LIMIT
    ensures |EncodeBatches(payloads)| <= (size + 10) * |payloads|
  {
    hide Varint.Encode;
    if payloads != [] {
      Varint.EncodeReserve(|payloads[0]|);
      BatchLength(payloads[1..], size);
      assert (size + 10) * |payloads| == (size + 10) + (size + 10) * |payloads[1..]|;
    }
  }

  /** Batches that keep to `max_batch_size` and to the limit of every payload inflate without being refused. */
  lemma BatchWithinLimit(packet: PacketDef, payloads: seq<seq<byte>>)
    requires |EncodeBatches(payloads)| <= MAX_DECOMPRESSED_SIZE
    requires packet.maxBatchSize > 0 ==> |payloads| <= packet.maxBatchSize
    requires packet.packetType.SingleType? && packet.dataMax.SingleLimit? ==>
               var size := EncodedSizeLimit(packet.packetType.kind, packet.dataMax.limit);
               size.Some? ==> forall i :: 0 <= i < |payloads| ==> |payloads[i]| <= size.value
    ensures |EncodeBatches(payloads)| <= InflationLimit(packet, true)
  {
    hide EncodeBatches;
    if SchemaSizeLimit(packet, true).Some? {
      var size := EncodedSizeLimit(packet.packetType.kind, packet.dataMax.limit).value;
      BatchLength(payloads, size);
      Monotone(size + 10, |payloads|, packet.maxBatchSize);
    }
  }

  lemma Monotone(a: nat, b: nat, c: nat)
    requires b <= c
    ensures a * b <= a * c
  {
  }

  // ---- batches of packets

  /** The batched packet's schema for one payload (`validate_batched`). */
  function Single(packet: PacketDef): PacketDef {
    packet.(dataBatching := 0, gzipCompression := false)
  }

  function EncodeForPacket(p: Platform, packet: PacketDef, payloads: seq<seq<byte>>): seq<byte> {
    if packet.gzipCompression then p.deflate.compress(EncodeBatches(payloads)) else EncodeBatches(payloads)
  }

  function DecodeForPacket(p: Platform, packet: PacketDef, bytes: seq<byte>): Result<seq<seq<byte>>> {
    var decoded :- if packet.gzipCompression then DecompressForPacket(p.deflate, packet, bytes, true) else Ok(bytes);
    DecodeBatchesLimited(decoded, if packet.maxBatchSize <= 0 then 0 else packet.maxBatchSize)
  }

  ghost function ValidateEach(p: Platform, packet: PacketDef, payloads: seq<seq<byte>>): Result<()> {
    if payloads == [] then Ok(())
    else
      var valid :- ValidatePacket(p, packet, payloads[0]);
      ValidateEach(p, packet, payloads[1..])
  }

  ghost function ValidateBatched(p: Platform, packet: PacketDef, bytes: seq<byte>): Result<()> {
    if packet.dataBatching == 0 then Err(InvalidData)
    else
      var payloads :- DecodeForPacket(p, packet, bytes);
      ValidateEach(p, Single(packet), payloads)
  }

  lemma {:induction false} EachIsValid(p: Platform, packet: PacketDef, payloads: seq<seq<byte>>)
    ensures ValidateEach(p, packet, payloads).Ok? <==> forall i :: 0 <= i < |payloads| ==> ValidatePacket(p, packet, payloads[i]).Ok?
  {
    hide ValidatePacket;
    if payloads != [] {
      EachIsValid(p, packet, payloads[1..]);
      assert forall i :: 1 <= i < |payloads| ==> payloads[i] == payloads[1..][i - 1];
    }
  }

  /** The batch is decoded if and only if its count keeps to the limit of the schema and, compressed, its length to the budget. */
  lemma BatchComesBack(p: Platform, packet: PacketDef, payloads: seq<seq<byte>>)
    requires p.Valid() && Vectors(payloads)
    ensures DecodeForPacket(p, packet, EncodeForPacket(p, packet, payloads))
         == if (packet.maxBatchSize > 0 && |payloads| > packet.maxBatchSize)
               || (packet.gzipCompression && |EncodeBatches(payloads)| > InflationLimit(packet, true))
            then Err(InvalidData) else Ok(payloads)
  {
    hide EncodeBatches, DecodeBatchesLimited, Huffman.WellFormed, InflationLimit;
    DecodeOfEncode(payloads, if packet.maxBatchSize <= 0 then 0 else packet.maxBatchSize);
  }

  /** What a sender of a batch can check: every value is sendable alone, and count and size keep to their limits. */
  ghost predicate BatchSendable(p: Platform, packet: PacketDef, sent: seq<SonicValue>, payloads: seq<seq<byte>>) {
    && packet.dataBatching != 0 && |payloads| == |sent|
    && (packet.maxBatchSize > 0 ==> |sent| <= packet.maxBatchSize)
    && (forall i :: 0 <= i < |sent| ==> Sendable(p, Single(packet), sent[i]) && EncodePacket(p, packet, sent[i]) == Ok(payloads[i]))
    && (packet.gzipCompression ==>
         && |EncodeBatches(payloads)| <= MAX_DECOMPRESSED_SIZE
         && (packet.packetType.SingleType? ==> forall i :: 0 <= i < |sent| ==> SentCount(packet.packetType.kind, sent[i]) <= packet.dataMax.limit))
  }

  lemma PayloadOfBatch(p: Platform, packet: PacketDef, value: SonicValue)
    requires packet.dataBatching != 0
    ensures EncodePacket(p, packet, value) == EncodePacket(p, Single(packet), value)
    ensures Sendable(p, Single(packet), value) ==> Payload(p, Single(packet), value) == EncodePacket(p, packet, value)
  {
    hide EncodeType, EncodeFields;
  }

  lemma SentPayloadsAreVectors(p: Platform, packet: PacketDef, sent: seq<SonicValue>, payloads: seq<seq<byte>>)
    requires BatchSendable(p, packet, sent, payloads)
    ensures Vectors(payloads)
  {
    hide EncodePacket, EncodeBatches;
    forall i | 0 <= i < |payloads| ensures |payloads[i]| < U64_LIMIT {
      PayloadOfBatch(p, packet, sent[i]);
    }
  }

  lemma SentPayloadsWithinLimit(p: Platform, packet: PacketDef, sent: seq<SonicValue>, payloads: seq<seq<byte>>)
    requires p.Valid() && BatchSendable(p, packet, sent, payloads) && packet.gzipCompression
    ensures |EncodeBatches(payloads)| <= InflationLimit(packet, true)
  {
    hide EncodeType, EncodeFields, EncodeBatches, InflationLimit, EncodedSizeLimit, SentCount, Allocatable;
    if packet.packetType.SingleType? && packet.dataMax.SingleLimit? && EncodedSizeLimit(packet.packetType.kind, packet.dataMax.limit).Some? {
      forall i | 0 <= i < |payloads| ensures |payloads[i]| <= EncodedSizeLimit(packet.packetType.kind, packet.dataMax.limit).value {
        assert EncodePacket(p, packet, sent[i]) == Ok(payloads[i]);
        PayloadWithinLimit(p, packet.packetType.kind, sent[i], Get(packet.enumData, 0), packet.dataMax.limit);
      }
    }
    BatchWithinLimit(packet, payloads);
  }

  /**
   * For every batched schema and every list of values: the receiver gets as many payloads as were sent, each decodes
   * to the normal form of its value if there is room for the booleans announced, and the batch passes validation if and only if every value meets the limits.
   */
  lemma BatchRoundTrip(p: Platform, packet: PacketDef, sent: seq<SonicValue>, payloads: seq<seq<byte>>)
    requires p.Valid() && BatchSendable(p, packet, sent, payloads)
    ensures var bytes := EncodeForPacket(p, packet, payloads);
            && DecodeForPacket(p, packet, bytes) == Ok(payloads)
            && (forall i :: 0 <= i < |sent| ==>
                  && (packet.packetType.ObjectType? ==> sent[i].Array? && |sent[i].items| == |packet.packetType.kinds|)
                  && DecodePacket(p, Single(packet), payloads[i])
                  == (if RoomForPacket(packet) then Ok(NormalPacket(p, Single(packet), sent[i])) else Err(Panic)))
            && (ValidateBatched(p, packet, bytes).Ok? <==> forall i :: 0 <= i < |sent| ==> SentPacketAccepted(Single(packet), sent[i]))
  {
    hide EncodePacket, DecodePacket, ValidatePacket, NormalPacket, SentPacketAccepted, EncodeBatches, Huffman.WellFormed, DecodeForPacket,
      EncodeForPacket, ValidateEach, InflationLimit, Payload, Allocatable, FieldsAllocatable, RoomFor, RoomForAll;
    SentPayloadsAreVectors(p, packet, sent, payloads);
    if packet.gzipCompression {
      SentPayloadsWithinLimit(p, packet, sent, payloads);
    }
    BatchComesBack(p, packet, payloads);
    EachIsValid(p, Single(packet), payloads);
    forall i | 0 <= i < |sent|
      ensures packet.packetType.ObjectType? ==> sent[i].Array? && |sent[i].items| == |packet.packetType.kinds|
      ensures DecodePacket(p, Single(packet), payloads[i])
           == if RoomForPacket(packet) then Ok(NormalPacket(p, Single(packet), sent[i])) else Err(Panic)
      ensures ValidatePacket(p, Single(packet), payloads[i]).Ok? <==> SentPacketAccepted(Single(packet), sent[i])
    {
      PayloadOfBatch(p, packet, sent[i]);
      RoundTrip(p, Single(packet), sent[i]);
    }
  }

  function EmptyPayloads(n: nat): (payloads: seq<seq<byte>>)
    ensures |payloads| == n && Vectors(payloads)
  {
    seq(n, _ => [])
  }

  /** One payload more than the limit and the batch is refused, however short. */
  lemma LongBatchIsRefused(limit: nat)
    requires limit > 0
    ensures DecodeBatchesLimited(EncodeBatches(EmptyPayloads(limit)), limit) == Ok(EmptyPayloads(limit))
    ensures DecodeBatchesLimited(EncodeBatches(EmptyPayloads(limit + 1)), limit) == Err(InvalidData)
  {
    hide DecodeBatchesLimited, EncodeBatches;
    DecodeOfEncode(EmptyPayloads(limit), limit);
    DecodeOfEncode(EmptyPayloads(limit + 1), limit);
  }

  // ---- the loops

  lemma NextFrame(payloads: seq<seq<byte>>, i: nat)
    requires i < |payloads|
    ensures EncodeBatches(payloads[i..]) == Varint.Encode(|payloads[i]|) + payloads[i] + EncodeBatches(payloads[i + 1..])
  {
    hide Varint.Encode;
    assert payloads[i..][1..] == payloads[i + 1..];
  }

  lemma Behind(done: seq<byte>, length: seq<byte>, payload: seq<byte>, rest: seq<byte>)
    ensures done + (length + payload + rest) == done + length + payload + rest
  {
  }

  method EncodeBatchesLoop(payloads: seq<seq<byte>>) returns (output: seq<byte>)
    ensures output == EncodeBatches(payloads)
  {
    hide Varint.Encode, EncodeBatches;
    output := [];
    assert payloads[0..] == payloads;
    for i := 0 to |payloads|
      invariant output + EncodeBatches(payloads[i..]) == EncodeBatches(payloads)
    {
      NextFrame(payloads, i);
      var length := Varint.EncodeLoop(|payloads[i]|);
      Behind(output, length, payloads[i], EncodeBatches(payloads[i + 1..]));
      output := output + length + payloads[i];
    }
    assert payloads[|payloads|..] == [] && EncodeBatches([]) == [] by { NothingFramed(); }
    assert output + [] == output;
  }

  lemma NothingFramed()
    ensures EncodeBatches([]) == []
  {
  }

  method DecodeBatchesLoop(bytes: seq<byte>, maxBatchSize: nat) returns (r: Result<seq<seq<byte>>>)
    ensures r == DecodeBatchesLimited(bytes, maxBatchSize)
  {
    hide Varint.Read;
    var reader := new Reader(bytes);
    var batches: seq<seq<byte>> := [];
    ghost var whole := DecodeBatchesLimited(bytes, maxBatchSize);
    assert whole == Prepend(batches, DecodeBatchesFrom(bytes, 0, maxBatchSize, 0)) by {
      assert forall tail: seq<seq<byte>> :: [] + tail == tail;
    }
    while !reader.IsEmpty()
      invariant reader.Valid() && reader.bytes == bytes
      invariant whole == Prepend(batches, DecodeBatchesFrom(bytes, reader.offset, maxBatchSize, |batches|))
      decreases |bytes| - reader.offset
    {
      if maxBatchSize > 0 && |batches| >= maxBatchSize {
        return Err(InvalidData);
      }
      var length :- Varint.Decode(reader);
      var payload :- reader.ReadExact(length);
      PrependPrepend(batches, [payload], DecodeBatchesFrom(bytes, reader.offset, maxBatchSize, |batches| + 1));
      batches := batches + [payload];
    }
    assert batches + [] == batches;
    return Ok(batches);
  }

  /** A batch is valid if and only if its packet is batched, it decodes, and each payload is valid for the unbatched packet. */
  lemma BatchIsValidIff(p: Platform, packet: PacketDef, bytes: seq<byte>)
    ensures var payloads := DecodeForPacket(p, packet, bytes);
            ValidateBatched(p, packet, bytes).Ok? <==>
            && packet.dataBatching != 0 && payloads.Ok?
            && forall i :: 0 <= i < |payloads.value| ==>
                 ValidatePacket(p, packet.(dataBatching := 0, gzipCompression := false), payloads.value[i]).Ok?
  {
    hide ValidatePacket, DecodeForPacket;
    if DecodeForPacket(p, packet, bytes).Ok? {
      EachIsValid(p, Single(packet), DecodeForPacket(p, packet, bytes).value);
    }
  }
}
