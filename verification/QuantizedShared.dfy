/** Quantized packets in Python (`py/src/sonic_ws/packets.py`, `codec.py`, `_core.py`): one residual per connection, unbounded integers. */
module QuantizedShared {
  import opened Primitives
  import opened Integers
  import opened Schema
  import opened Codec
  import opened CodecRoundTrip
  import opened PacketRoundTrip
  import opened SizeLimit
  import opened CodecMeaning
  import opened QuantizedTransfer
  import opened QuantizationLaws
  import Q = Quantization
  import Huffman

  predicate AllI64(numbers: seq<int>) {
    forall k :: 0 <= k < |numbers| ==> InI64(numbers[k])
  }

  predicate AllU64(numbers: seq<int>) {
    forall k :: 0 <= k < |numbers| ==> 0 <= numbers[k] < U64_LIMIT
  }

  /** `struct.pack`: eight bytes a number, with an error for numbers beyond them. */
  function Packed(kind: PacketType, numbers: seq<int>): Result<seq<SonicValue>> {
    if SignedKind(kind) || kind.Deltas? then if AllI64(numbers) then Ok(Signed(numbers)) else Err(InvalidData)
    else if AllU64(numbers) then Ok(Unsigned64(numbers)) else Err(InvalidData)
  }

  /** The count is checked before packing. */
  function EncodeShared(ch: Channel, numbers: seq<int>): Result<seq<byte>>
    requires ch.definition.packetType.SingleType? && ShapesMatch(ch.definition)
  {
    if |numbers| < ch.definition.dataMin.limit || |numbers| > ch.definition.dataMax.limit then Err(InvalidData)
    else
      var items :- Packed(ch.Kind(), numbers);
      EncodePacket(ch.platform, ch.definition, Array(items))
  }

  /** `Packet.encode` */
  function TransmitShared(ch: Channel, errors: map<nat, real>, event: Q.SharedEvent): (Result<seq<byte>>, map<nat, real>)
    requires ch.definition.packetType.SingleType? && ShapesMatch(ch.definition) && ch.cfg.quantized.Some?
  {
    var sent := Q.SendShared(ch.cfg, Q.SharedResidual(errors, event.connection), event.values);
    var after := errors[event.connection := sent.1];
    match sent.0
    case Err(e) => (Err(e), after)
    case Ok(numbers) => (EncodeShared(ch, numbers), after)
  }

  /** Inflating up to the global ceiling. */
  function InflatedShared(ch: Channel, bytes: seq<byte>): Result<seq<byte>> {
    if !Compressed(ch.definition) then Ok(bytes)
    else match ch.platform.deflate.inflate(bytes)
      case None => Err(InvalidData)
      case Some(data) => if |data| > MAX_DECOMPRESSED_SIZE then Err(InvalidData) else Ok(data)
  }

  /** `Packet.decode`: the count is checked after decoding, then the range. */
  ghost function ReceiveShared(ch: Channel, bytes: seq<byte>): Result<seq<Q.Number>>
    requires ch.Valid()
  {
    var raw :- InflatedShared(ch, bytes);
    var value :- DecodeType(ch.platform, ch.Kind(), raw, 0xFFFF_FFFF, None);
    var count := |Items(value)|;
    if count < ch.definition.dataMin.limit || count > ch.definition.dataMax.limit then Err(InvalidData)
    else FinishReceive(ch, value)
  }

  /** Before the call: the codec carries the integers unchanged. */
  predicate FitsShared(kind: PacketType, numbers: seq<int>) {
    if SignedKind(kind) then forall k :: 0 <= k < |numbers| ==> InI32(numbers[k])
    else kind.Deltas? ==> StepsFitI32(0, numbers)
  }

  ghost predicate ArrivesShared(ch: Channel, numbers: seq<int>)
    requires ch.Valid()
  {
    && FitsShared(ch.Kind(), numbers) && MultiplesInRange(ch.cfg, ch.cfg.quantized.value.scale, numbers)
    && (Packed(ch.Kind(), numbers).Ok? ==> Inflates(ch, Packed(ch.Kind(), numbers).value))
  }

  predicate PhysicalShared(ch: Channel, numbers: seq<int>) {
    ch.definition.packetType.SingleType? && Packed(ch.Kind(), numbers).Ok? ==> Physical(ch, Packed(ch.Kind(), numbers).value)
  }

  lemma PackedHolds(kind: PacketType, numbers: seq<int>)
    requires IntegerKind(kind) && Packed(kind, numbers).Ok?
    ensures Holds(Packed(kind, numbers).value, kind, numbers)
  {
  }

  lemma CarriedIffFitsShared(kind: PacketType, numbers: seq<int>)
    requires IntegerKind(kind) && Packed(kind, numbers).Ok?
    ensures Decoded(kind, numbers) == numbers <==> FitsShared(kind, numbers)
  {
    hide StepsFitI32, RunningSums, Differences;
    if SignedKind(kind) {
      assert forall k :: 0 <= k < |numbers| ==> Decoded(kind, numbers)[k] == AsI32(numbers[k]);
    } else if kind.Deltas? {
      DeltasExact(0, numbers);
    }
  }

  lemma ReceiveSharedIsDecoded(ch: Channel, numbers: seq<int>)
    requires ch.Valid() && EncodeShared(ch, numbers).Ok? && PhysicalShared(ch, numbers)
    ensures ReceivedOf(ch, numbers) == if Inflates(ch, Packed(ch.Kind(), numbers).value)
                                     then Q.ReceiveAll(ch.cfg, Wholes(Decoded(ch.Kind(), numbers))) else Err(InvalidData)
  {
    hide EncodeType, DecodeType, Normal, Huffman.WellFormed, Holds, Decoded, Q.ReceiveAll, IntegersIn;
    var items := Packed(ch.Kind(), numbers).value;
    PackedHolds(ch.Kind(), numbers);
    NoTexts(items, ch.Kind(), numbers);
    var payload := Payload(ch.platform, ch.definition, Array(items)).value;
    if Inflates(ch, items) {
      assert InflatedShared(ch, EncodeShared(ch, numbers).value) == Ok(payload);
      SectorRoundTrip(ch.platform, ch.Kind(), Array(items), 0xFFFF_FFFF, Get(ch.definition.enumData, 0));
      EnumsDoNotMatter(ch.platform, ch.Kind(), payload, 0xFFFF_FFFF, Get(ch.definition.enumData, 0));
      NormalHoldsDecoded(ch.platform, ch.Kind(), items, numbers, 0xFFFF_FFFF, Get(ch.definition.enumData, 0));
      NormalCount(ch.platform, ch.Kind(), items, 0xFFFF_FFFF, Get(ch.definition.enumData, 0));
    }
  }

  /** Receiving what was encoded for these numbers. */
  ghost function ReceivedOf(ch: Channel, numbers: seq<int>): Result<seq<Q.Number>>
    requires ch.Valid() && EncodeShared(ch, numbers).Ok?
  {
    ReceiveShared(ch, EncodeShared(ch, numbers).value)
  }

  lemma EnumsDoNotMatter(p: Platform, kind: PacketType, bytes: seq<byte>, cap: u64, enums: Option<EnumPackage>)
    requires IntegerKind(kind)
    ensures DecodeType(p, kind, bytes, cap, None) == DecodeType(p, kind, bytes, cap, enums)
  {
    hide DecodeChunks, DecodeVarints;
  }

  lemma NormalCount(p: Platform, kind: PacketType, items: seq<SonicValue>, cap: u64, enums: Option<EnumPackage>)
    requires IntegerKind(kind)
    ensures |Items(Normal(p, kind, Array(items), cap, enums))| == |items|
  {
    hide RunningSums, Differences;
  }

  /**
   * For every list of integers that encodes: the receiver gets their multiples exactly if and only if they fit the
   * kind, the multiples are in the range of the packet, and the payload inflates.
   */
  lemma ArrivesSharedIff(ch: Channel, numbers: seq<int>)
    requires ch.Valid() && EncodeShared(ch, numbers).Ok? && PhysicalShared(ch, numbers)
    ensures ReceiveShared(ch, EncodeShared(ch, numbers).value) == Ok(Multiples(ch.cfg.quantized.value.scale, numbers))
       <==> ArrivesShared(ch, numbers)
  {
    hide EncodeShared, ReceiveShared, FitsShared, Decoded, Physical, Inflates, Multiples, MultiplesInRange, Packed;
    var scale, decoded := ch.cfg.quantized.value.scale, Decoded(ch.Kind(), numbers);
    assert Packed(ch.Kind(), numbers).Ok? by { EncodedIsPacked(ch, numbers); }
    ReceiveSharedIsDecoded(ch, numbers);
    CarriedIffFitsShared(ch.Kind(), numbers);
    ReceivedNumbers(ch.cfg, decoded);
    SameMultiples(scale, decoded, numbers);
  }

  lemma EncodedIsPacked(ch: Channel, numbers: seq<int>)
    requires ch.definition.packetType.SingleType? && ShapesMatch(ch.definition) && EncodeShared(ch, numbers).Ok?
    ensures Packed(ch.Kind(), numbers).Ok?
  {
  }

  /** Integers encode if and only if their number keeps to the limits and the kind takes each of them. */
  lemma EncodesSharedIff(ch: Channel, numbers: seq<int>)
    requires ch.Valid()
    ensures EncodeShared(ch, numbers).Ok? <==>
            && ch.definition.dataMin.limit <= |numbers| <= ch.definition.dataMax.limit
            && forall f :: 0 <= f < |numbers| ==> Takes(ch.Kind(), numbers[f]) && numbers[f] < U64_LIMIT
  {
    hide EncodeType, Platform.Valid, Takes;
    var kind := ch.Kind();
    if Packed(kind, numbers).Ok? {
      var items := Packed(kind, numbers).value;
      EncodesIff(ch.platform, kind, Array(items), items, Get(ch.definition.enumData, 0));
      forall f | 0 <= f < |numbers| ensures IsTaken(kind, items[f]) <==> Takes(kind, numbers[f]) {
        assert Denotes(items[f], numbers[f]) && forall n :: Denotes(items[f], n) ==> n == numbers[f];
      }
    } else {
      var f :| 0 <= f < |numbers| && !(if SignedKind(kind) || kind.Deltas? then InI64(numbers[f]) else 0 <= numbers[f] < U64_LIMIT);
      TakesWords(kind, numbers[f]);
    }
  }

  lemma TakesWords(kind: PacketType, n: int)
    requires IntegerKind(kind)
    ensures Takes(kind, n) && n < U64_LIMIT ==> if SignedKind(kind) || kind.Deltas? then InI64(n) else 0 <= n < U64_LIMIT
  {
  }

  // ---- runs

  /** A run in which every packet is sent and received. */
  ghost function TransferShared(ch: Channel, errors: map<nat, real>, events: seq<Q.SharedEvent>): (r: Result<seq<seq<Q.Number>>>)
    requires ch.Valid()
    ensures r.Ok? ==> |r.value| == |events|
    decreases |events|
  {
    if events == [] then Ok([])
    else
      var sent := TransmitShared(ch, errors, events[0]);
      var bytes :- sent.0;
      var got :- ReceiveShared(ch, bytes);
      Prepend([got], TransferShared(ch, sent.1, events[1..]))
  }

  /** What a send rounds to. */
  function RoundedShared(ch: Channel, errors: map<nat, real>, event: Q.SharedEvent): Result<seq<int>>
    requires ch.cfg.quantized.Some?
  {
    Q.SendShared(ch.cfg, Q.SharedResidual(errors, event.connection), event.values).0
  }

  ghost predicate AllArriveShared(ch: Channel, errors: map<nat, real>, events: seq<Q.SharedEvent>)
    requires ch.Valid()
    decreases |events|
  {
    events == [] ||
    (&& TransmitShared(ch, errors, events[0]).0.Ok?
     && PhysicalShared(ch, RoundedShared(ch, errors, events[0]).value) && ArrivesShared(ch, RoundedShared(ch, errors, events[0]).value)
     && AllArriveShared(ch, TransmitShared(ch, errors, events[0]).1, events[1..]))
  }

  function TotalNumbers(numbers: seq<Q.Number>): real {
    if numbers == [] then 0.0 else Q.AsReal(numbers[0]) + TotalNumbers(numbers[1..])
  }

  /** What the receiver adds up over all fields on a connection. */
  function SharedReceived(events: seq<Q.SharedEvent>, got: seq<seq<Q.Number>>, c: nat): real
    requires |events| == |got|
  {
    if events == [] then 0.0
    else
      var here := if events[0].connection == c then TotalNumbers(got[0]) else 0.0;
      here + SharedReceived(events[1..], got[1..], c)
  }

  lemma {:induction false} TotalOfMultiples(scale: real, numbers: seq<int>)
    requires scale > 0.0
    ensures Scaled(scale, TotalNumbers(Multiples(scale, numbers))) == Q.TotalWire(numbers)
  {
    hide Scaled;
    if numbers == [] {
      ScaledSum(scale, 0.0, 0.0);
    } else {
      var first := numbers[0] as real / scale;
      TotalOfMultiples(scale, numbers[1..]);
      assert Multiples(scale, numbers)[1..] == Multiples(scale, numbers[1..]);
      ScaledSum(scale, first, TotalNumbers(Multiples(scale, numbers[1..])));
      ScaledBack(scale, numbers[0]);
    }
  }

  lemma ScaledBack(scale: real, number: int)
    requires scale > 0.0
    ensures Scaled(scale, number as real / scale) == number as real
  {
  }

  lemma {:induction false} TransferSharedIsRounded(ch: Channel, errors: map<nat, real>, events: seq<Q.SharedEvent>, c: nat)
    requires ch.Valid() && AllArriveShared(ch, errors, events)
    ensures var scale := ch.cfg.quantized.value.scale;
            && TransferShared(ch, errors, events).Ok? && Q.RunShared(ch.cfg, errors, events).Ok?
            && Scaled(scale, SharedReceived(events, TransferShared(ch, errors, events).value, c))
               == Q.SharedWire(events, Q.RunShared(ch.cfg, errors, events).value.0, c)
    decreases |events|
  {
    hide Platform.Valid, ShapesMatch, IntegerKind, Scaled, EncodeShared, ReceiveShared, ArrivesShared, PhysicalShared, Multiples, TotalNumbers, Q.TotalWire, Q.SendShared;
    var scale := ch.cfg.quantized.value.scale;
    if events == [] {
      ScaledSum(scale, 0.0, 0.0);
    } else {
      var sent := TransmitShared(ch, errors, events[0]);
      var numbers := RoundedShared(ch, errors, events[0]).value;
      ArrivesSharedIff(ch, numbers);
      TransferSharedIsRounded(ch, sent.1, events[1..], c);
      TotalOfMultiples(scale, numbers);
      var rest := TransferShared(ch, sent.1, events[1..]).value;
      assert TransferShared(ch, errors, events).value == [Multiples(scale, numbers)] + rest;
      assert ([Multiples(scale, numbers)] + rest)[1..] == rest;
      var outs := Q.RunShared(ch.cfg, sent.1, events[1..]).value.0;
      assert Q.RunShared(ch.cfg, errors, events).value.0 == [numbers] + outs;
      assert ([numbers] + outs)[1..] == outs;
      var here := if events[0].connection == c then TotalNumbers(Multiples(scale, numbers)) else 0.0;
      ScaledSum(scale, here, SharedReceived(events[1..], rest, c));
    }
  }

  /**
   * With one residual for all fields: over every run of sends that succeed and arrive, the sum over all fields that the
   * receiver decodes on a connection is within half a step of what was sent.
   */
  lemma NoSharedDrift(ch: Channel, events: seq<Q.SharedEvent>, c: nat)
    requires ch.Valid() && ch.cfg.quantized.value.trackError && AllArriveShared(ch, map[], events)
    ensures TransferShared(ch, map[], events).Ok?
    ensures var scale := ch.cfg.quantized.value.scale;
            var difference := Q.SharedSent(events, c) - SharedReceived(events, TransferShared(ch, map[], events).value, c);
            -1.0 / (2.0 * scale) <= difference <= 1.0 / (2.0 * scale)
  {
    hide Platform.Valid, ShapesMatch, IntegerKind, Scaled, TransferShared, AllArriveShared, SharedReceived, Q.SharedSent, Q.SharedWire,
      Q.RunShared;
    var scale := ch.cfg.quantized.value.scale;
    TransferSharedIsRounded(ch, map[], events, c);
    Q.RunSharedBalances(ch.cfg, map[], events, c);
    assert -0.5 <= Q.SharedResidual(Q.RunShared(ch.cfg, map[], events).value.1, c) <= 0.5;
    WithinHalfAStep(scale, Q.SharedSent(events, c), SharedReceived(events, TransferShared(ch, map[], events).value, c));
  }

  /** A send that succeeds rounds every value to the nearest multiple, counting what is left over from the field before. */
  lemma TransmitsNearest(ch: Channel, errors: map<nat, real>, event: Q.SharedEvent)
    requires ch.Valid() && TransmitShared(ch, errors, event).0.Ok?
    ensures var numbers := RoundedShared(ch, errors, event);
            && numbers.Ok? && |numbers.value| == |event.values| && TransmitShared(ch, errors, event).0 == EncodeShared(ch, numbers.value)
            && RoundsShared(ch.cfg.quantized.value, Q.SharedResidual(errors, event.connection), event.values, numbers.value,
                            Q.SharedResidual(TransmitShared(ch, errors, event).1, event.connection))
            && forall c :: c != event.connection ==> Q.SharedResidual(TransmitShared(ch, errors, event).1, c) == Q.SharedResidual(errors, c)
  {
    hide Q.SendShared, EncodeShared, RoundsShared, InsideRange;
    SendSharedRounds(ch.cfg, ch.cfg.quantized.value, Q.SharedResidual(errors, event.connection), event.values);
  }

  /** A send with a value out of range leaves over what the fields before it did, for its connection only. */
  lemma FailedSendAdvances(ch: Channel, errors: map<nat, real>, event: Q.SharedEvent)
    requires ch.Valid() && RoundedShared(ch, errors, event).Err?
    ensures var (sent, after) := TransmitShared(ch, errors, event);
            && sent == Err(InvalidData)
            && (exists numbers :: RoundsUpTo(ch.cfg, ch.cfg.quantized.value, Q.SharedResidual(errors, event.connection), event.values, numbers,
                                             Q.SharedResidual(after, event.connection)))
            && forall c :: c != event.connection ==> Q.SharedResidual(after, c) == Q.SharedResidual(errors, c)
  {
    hide Q.SendShared, RoundsUpTo, InsideRange;
    var q, before := ch.cfg.quantized.value, Q.SharedResidual(errors, event.connection);
    SendSharedRounds(ch.cfg, q, before, event.values);
    var sent := Q.SendShared(ch.cfg, before, event.values);
    assert sent.0.Err?;
    var numbers :| RoundsUpTo(ch.cfg, q, before, event.values, numbers, sent.1);
    assert Q.SharedResidual(TransmitShared(ch, errors, event).1, event.connection) == sent.1;
  }

  predicate CloseToReals(scale: real, sent: seq<real>, got: seq<Q.Number>)
    requires scale > 0.0
  {
    && |got| == |sent|
    && forall f :: 0 <= f < |got| ==> -1.0 / (2.0 * scale) <= Q.AsReal(got[f]) - sent[f] <= 1.0 / (2.0 * scale)
  }

  lemma {:induction false} SharedIsClose(q: Q.Quantized, residual: real, values: seq<real>, numbers: seq<int>, after: real)
    requires q.scale > 0.0 && !q.trackError && |values| == |numbers| && RoundsShared(q, residual, values, numbers, after)
    ensures CloseToReals(q.scale, values, Multiples(q.scale, numbers)) && after == residual
    decreases |values|
  {
    if values != [] {
      SharedIsClose(q, residual, values[1..], numbers[1..], after);
      QuotientIsClose(q.scale, values[0], Counted(q, values[0], residual), numbers[0]);
      assert forall f :: 1 <= f < |values| ==> values[f] == values[1..][f - 1] && numbers[f] == numbers[1..][f - 1];
      assert forall f :: 1 <= f < |values| ==> Multiples(q.scale, numbers)[f] == Multiples(q.scale, numbers[1..])[f - 1];
    }
  }

  /** Without tracking: over every run of sends that succeed and arrive, every value decoded is within half a step of the one sent. */
  lemma {:induction false} StatelessSharedIsClose(ch: Channel, errors: map<nat, real>, events: seq<Q.SharedEvent>)
    requires ch.Valid() && !ch.cfg.quantized.value.trackError && AllArriveShared(ch, errors, events)
    ensures TransferShared(ch, errors, events).Ok?
    ensures forall i :: 0 <= i < |events| ==>
              CloseToReals(ch.cfg.quantized.value.scale, events[i].values, TransferShared(ch, errors, events).value[i])
    decreases |events|
  {
    hide Platform.Valid, ShapesMatch, IntegerKind, EncodeShared, ReceiveShared, ArrivesShared, PhysicalShared, Multiples, CloseToReals, Q.SendShared,
      RoundsShared;
    if events != [] {
      var q := ch.cfg.quantized.value;
      var numbers := RoundedShared(ch, errors, events[0]).value;
      TransmitsNearest(ch, errors, events[0]);
      SharedIsClose(q, Q.SharedResidual(errors, events[0].connection), events[0].values, numbers,
                    Q.SharedResidual(TransmitShared(ch, errors, events[0]).1, events[0].connection));
      ArrivesSharedIff(ch, numbers);
      var after := TransmitShared(ch, errors, events[0]).1;
      StatelessSharedIsClose(ch, after, events[1..]);
      var rest := TransferShared(ch, after, events[1..]).value;
      assert TransferShared(ch, errors, events).value == [Multiples(q.scale, numbers)] + rest;
      assert forall i :: 1 <= i < |events| ==> events[i] == events[1..][i - 1];
    }
  }

  /** Here too a varint packet sends 2^31 with nothing left over, and the receiver gets -2^31. */
  lemma SharedVarintWraps(p: Platform)
    requires p.Valid()
    ensures var ch := Example(p, VarInt, NO_RANGE);
            && ch.Valid()
            && var (sent, after) := TransmitShared(ch, map[], Q.SharedEvent(0, [0x8000_0000 as real]));
            && sent.Ok? && after == map[0 := 0.0]
            && ReceiveShared(ch, sent.value) == Ok([Q.Fractional(-0x8000_0000 as real)])
  {
    hide Huffman.WellFormed, EncodePacket, ReceiveShared, Physical, Inflates, Receive;
    var ch, numbers := Example(p, VarInt, NO_RANGE), [0x8000_0000];
    OneArrives(p, VarInt, NO_RANGE, 0x8000_0000);
    assert 0x8000_0000 as real * 1.0 + 0.0 == 0x8000_0000 as real;
    assert Q.SendShared(ch.cfg, 0.0, []) == (Ok([]), 0.0);
    assert [0x8000_0000 as real][1..] == [] && [0x8000_0000] + [] == numbers;
    assert Q.SendShared(ch.cfg, 0.0, [0x8000_0000 as real]) == (Ok(numbers), 0.0);
    assert Packed(VarInt, numbers) == Ok(Signed(numbers));
    ReceiveSharedIsDecoded(ch, numbers);
    assert Wholes(Decoded(VarInt, numbers)) == [Q.Whole(-0x8000_0000)];
    OneReceived(ch.cfg, -0x8000_0000);
  }
}
