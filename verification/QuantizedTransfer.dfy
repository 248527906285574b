/**
 * Quantized packets from the sender's numbers to the receiver's: rounding, the codec with its 32-bit integers, and the
 * second range check on receipt (`rust/src/packet.rs`, `py/src/sonic_ws/packets.py`).
 */
module QuantizedTransfer {
  import opened Primitives
  import opened Integers
  import opened Schema
  import opened Codec
  import opened CodecAgreement
  import opened CodecRoundTrip
  import opened PacketRoundTrip
  import opened SizeLimit
  import opened CodecMeaning
  import opened QuantizationLaws
  import Q = Quantization
  import Huffman
  import Strings
  import Varint

  // ---- integers through the codec

  function Signed(numbers: seq<i64>): (items: seq<SonicValue>)
    ensures |items| == |numbers| && forall k :: 0 <= k < |items| ==> items[k] == I64(numbers[k])
  {
    seq(|numbers|, k requires 0 <= k < |numbers| => I64(numbers[k]))
  }

  function Unsigned64(numbers: seq<u64>): (items: seq<SonicValue>)
    ensures |items| == |numbers| && forall k :: 0 <= k < |items| ==> items[k] == U64(numbers[k])
  {
    seq(|numbers|, k requires 0 <= k < |numbers| => U64(numbers[k]))
  }

  /** The integers that a receiver decodes. */
  function Decoded(kind: PacketType, numbers: seq<int>): (r: seq<int>)
    ensures |r| == |numbers|
  {
    if SignedKind(kind) then seq(|numbers|, k requires 0 <= k < |numbers| => AsI32(numbers[k]))
    else if kind.Deltas? then RunningSums(0, Differences(0, numbers))
    else numbers
  }

  /** The integers of decoded items. */
  function IntegersIn(items: seq<SonicValue>): Result<seq<Q.Number>> {
    if forall k :: 0 <= k < |items| ==> items[k].I64? || items[k].U64?
    then Ok(seq(|items|, k requires 0 <= k < |items| && (items[k].I64? || items[k].U64?) =>
                Q.Whole(if items[k].I64? then items[k].i else items[k].u)))
    else Err(InvalidData)
  }

  function Wholes(numbers: seq<int>): (r: seq<Q.Number>)
    ensures |r| == |numbers| && forall k :: 0 <= k < |r| ==> r[k] == Q.Whole(numbers[k])
  {
    seq(|numbers|, k requires 0 <= k < |numbers| => Q.Whole(numbers[k]))
  }

  /** What the application hands to the codec holds these integers. */
  ghost predicate Holds(items: seq<SonicValue>, kind: PacketType, numbers: seq<int>) {
    && |items| == |numbers|
    && forall k :: 0 <= k < |items| ==>
         if SignedKind(kind) || kind.Deltas? then items[k].I64? && items[k].i == numbers[k] else numbers[k] >= 0 && Denotes(items[k], numbers[k])
  }

  lemma NormalHoldsDecoded(p: Platform, kind: PacketType, items: seq<SonicValue>, numbers: seq<int>, cap: u64, enums: Option<EnumPackage>)
    requires IntegerKind(kind) && Holds(items, kind, numbers)
    ensures var normal := Normal(p, kind, Array(items), cap, enums);
            normal.Array? && IntegersIn(normal.items) == Ok(Wholes(Decoded(kind, numbers)))
  {
    hide AsI32, RunningSums, Differences;
    var normal := Normal(p, kind, Array(items), cap, enums);
    if kind.Deltas? {
      assert IntegersOf(items) == numbers;
      SumsAreWords(0, Differences(0, numbers));
    }
    assert IntegersIn(normal.items).value == Wholes(Decoded(kind, numbers));
  }

  // ---- the channel

  /** A quantized packet on both sides. */
  datatype Channel = Channel(platform: Platform, definition: PacketDef, cfg: Q.Config) {
    ghost predicate Valid() {
      && platform.Valid() && cfg.Valid() && cfg.quantized.Some?
      && definition.packetType.SingleType? && IntegerKind(definition.packetType.kind) && ShapesMatch(definition)
    }

    function Kind(): PacketType
      requires definition.packetType.SingleType?
    {
      definition.packetType.kind
    }
  }

  /** `Packet::encode` after the transformation: the count is checked, then the packet encoded. */
  function EncodeCounted(ch: Channel, items: seq<SonicValue>): Result<seq<byte>>
    requires ch.definition.packetType.SingleType? && ShapesMatch(ch.definition)
  {
    if |items| < ch.definition.dataMin.limit || |items| > ch.definition.dataMax.limit then Err(InvalidData)
    else EncodePacket(ch.platform, ch.definition, Array(items))
  }

  /** `Packet::encode` */
  ghost function Transmit(ch: Channel, errors: map<nat, seq<real>>, event: Q.Event): (Result<seq<byte>>, map<nat, seq<real>>)
    requires ch.Valid()
  {
    var sent := Q.Send(ch.cfg, errors, event.connection, event.values);
    match sent.0
    case Err(e) => (Err(e), sent.1)
    case Ok(out) => (EncodeCounted(ch, Signed(Wires(out))), sent.1)
  }

  /** The 64-bit integers of what the sending loop leaves. */
  function Wires(out: seq<Q.Number>): (wires: seq<i64>)
    requires forall k :: 0 <= k < |out| ==> out[k].Whole? && InI64(out[k].i)
    ensures |wires| == |out|
  {
    seq(|out|, k requires 0 <= k < |out| && out[k].Whole? && InI64(out[k].i) => out[k].i)
  }

  /** The tail of `Packet::decode`: the numbers of a decoded value, divided and checked against the range again. */
  ghost function FinishReceive(ch: Channel, value: SonicValue): Result<seq<Q.Number>>
    requires ch.Valid()
  {
    var numbers :- IntegersIn(Items(value));
    Q.ReceiveAll(ch.cfg, numbers)
  }

  /** `Packet::decode` */
  ghost function Receive(ch: Channel, bytes: seq<byte>): Result<seq<Q.Number>>
    requires ch.Valid()
  {
    var valid :- ValidatePacket(ch.platform, ch.definition, bytes);
    var value :- DecodePacket(ch.platform, ch.definition, bytes);
    FinishReceive(ch, value)
  }

  // ---- when exactly a send arrives as it was rounded

  function Multiples(scale: real, numbers: seq<int>): (r: seq<Q.Number>)
    requires scale > 0.0
    ensures |r| == |numbers| && forall k :: 0 <= k < |r| ==> r[k] == Q.Fractional(numbers[k] as real / scale)
  {
    seq(|numbers|, k requires 0 <= k < |numbers| => Q.Fractional(numbers[k] as real / scale))
  }

  predicate MultiplesInRange(cfg: Q.Config, scale: real, numbers: seq<int>)
    requires scale > 0.0
  {
    forall k :: 0 <= k < |numbers| ==> !cfg.OutOfRange(numbers[k] as real / scale)
  }

  lemma {:induction false} ReceivedNumbers(cfg: Q.Config, numbers: seq<int>)
    requires cfg.Valid() && cfg.quantized.Some?
    ensures var scale := cfg.quantized.value.scale;
            if MultiplesInRange(cfg, scale, numbers) then Q.ReceiveAll(cfg, Wholes(numbers)) == Ok(Multiples(scale, numbers))
            else Q.ReceiveAll(cfg, Wholes(numbers)).Err?
  {
    hide Q.Config.OutOfRange;
    if numbers != [] {
      var scale := cfg.quantized.value.scale;
      ReceivedNumbers(cfg, numbers[1..]);
      assert Wholes(numbers)[1..] == Wholes(numbers[1..]);
      OneMoreMultiple(cfg, scale, numbers);
    }
  }

  lemma OneMoreMultiple(cfg: Q.Config, scale: real, numbers: seq<int>)
    requires scale > 0.0 && numbers != []
    ensures Multiples(scale, numbers) == [Q.Fractional(numbers[0] as real / scale)] + Multiples(scale, numbers[1..])
    ensures MultiplesInRange(cfg, scale, numbers) <==> !cfg.OutOfRange(numbers[0] as real / scale) && MultiplesInRange(cfg, scale, numbers[1..])
  {
    hide Q.Config.OutOfRange;
    assert numbers == [numbers[0]] + numbers[1..];
  }

  lemma SameMultiples(scale: real, a: seq<int>, b: seq<int>)
    requires scale > 0.0 && |a| == |b|
    ensures Multiples(scale, a) == Multiples(scale, b) <==> a == b
  {
    if Multiples(scale, a) == Multiples(scale, b) {
      forall k | 0 <= k < |a| ensures a[k] == b[k] {
        assert Multiples(scale, a)[k] == Multiples(scale, b)[k];
        SameQuotient(scale, a[k] as real, b[k] as real);
      }
    }
  }

  lemma SameQuotient(scale: real, a: real, b: real)
    requires scale > 0.0 && a / scale == b / scale
    ensures a == b
  {
    assert a == a / scale * scale && b == b / scale * scale;
  }

  /** The codec carries a list of integers unchanged, and they pass the range on receipt. */
  ghost predicate Carried(ch: Channel, wires: seq<int>, exact: seq<int>)
    requires ch.Valid()
  {
    Decoded(ch.Kind(), wires) == exact && MultiplesInRange(ch.cfg, ch.cfg.quantized.value.scale, exact)
  }

  /** Compressed packets inflate on receipt, below the global ceiling. */
  predicate Inflates(ch: Channel, items: seq<SonicValue>) {
    var payload := Payload(ch.platform, ch.definition, Array(items));
    Compressed(ch.definition) && payload.Ok? ==> |payload.value| <= MAX_DECOMPRESSED_SIZE
  }

  /** No vector is longer than memory allows. */
  predicate Physical(ch: Channel, items: seq<SonicValue>) {
    && Strings.STRING_SIZE * |items| <= MAX_ALLOCATION
    && var payload := Payload(ch.platform, ch.definition, Array(items));
    payload.Ok? ==> |payload.value| < ADDRESSABLE
  }

  lemma {:induction false} NoTexts(items: seq<SonicValue>, kind: PacketType, numbers: seq<int>)
    requires IntegerKind(kind) && Holds(items, kind, numbers)
    ensures TextLength(items) == 0
  {
    if items != [] {
      NoTexts(items[1..], kind, numbers[1..]);
    }
  }

  lemma CountedIsSendable(ch: Channel, items: seq<SonicValue>, numbers: seq<int>)
    requires ch.Valid() && Holds(items, ch.Kind(), numbers) && EncodeCounted(ch, items).Ok?
    requires Physical(ch, items) && Inflates(ch, items)
    ensures Sendable(ch.platform, ch.definition, Array(items)) && SentPacketAccepted(ch.definition, Array(items))
  {
    hide EncodeType, EncodeFields, Huffman.WellFormed;
    NoTexts(items, ch.Kind(), numbers);
    assert Payload(ch.platform, ch.definition, Array(items)).Ok?;
  }

  /** Decoding what was encoded: the integers of the codec, or nothing when the payload is beyond the ceiling. */
  lemma ReceiveIsDecoded(ch: Channel, items: seq<SonicValue>, numbers: seq<int>)
    requires ch.Valid() && Holds(items, ch.Kind(), numbers) && EncodeCounted(ch, items).Ok? && Physical(ch, items)
    ensures Receive(ch, EncodeCounted(ch, items).value)
         == if Inflates(ch, items) then Q.ReceiveAll(ch.cfg, Wholes(Decoded(ch.Kind(), numbers))) else Err(InvalidData)
  {
    hide EncodeType, EncodeFields, DecodeType, DecodeFields, ValidateType, ValidateFields, Normal, Huffman.WellFormed, Physical,
      SentPacketAccepted, Holds, Decoded, Q.ReceiveAll, IntegersIn;
    var bytes := EncodeCounted(ch, items).value;
    if Inflates(ch, items) {
      CountedIsSendable(ch, items, numbers);
      RoundTrip(ch.platform, ch.definition, Array(items));
      NormalHoldsDecoded(ch.platform, ch.Kind(), items, numbers, ch.definition.dataMax.limit, Get(ch.definition.enumData, 0));
    } else {
      assert Inflated(ch.platform, ch.definition, bytes) == Err(InvalidData);
    }
  }

  /**
   * What a receiver makes of an encoded list is, number by number, the exact multiple of the step if and only if the
   * codec carries the integers unchanged, they are in range, and the payload inflates.
   */
  lemma ReceivedExactlyIff(ch: Channel, items: seq<SonicValue>, wires: seq<int>, exact: seq<int>)
    requires ch.Valid() && Holds(items, ch.Kind(), wires) && EncodeCounted(ch, items).Ok? && Physical(ch, items) && |exact| == |wires|
    ensures Receive(ch, EncodeCounted(ch, items).value) == Ok(Multiples(ch.cfg.quantized.value.scale, exact))
       <==> Carried(ch, wires, exact) && Inflates(ch, items)
  {
    hide EncodeCounted, Receive, Holds, Decoded, Physical, Inflates, MultiplesInRange, Multiples;
    ReceiveIsDecoded(ch, items, wires);
    var numbers, scale := Decoded(ch.Kind(), wires), ch.cfg.quantized.value.scale;
    ReceivedNumbers(ch.cfg, numbers);
    SameMultiples(scale, numbers, exact);
  }

  // ---- Rust

  /** Before the call: the rounded integers are in the range of the kind, and their multiples in that of the packet. */
  predicate Fits(kind: PacketType, rounded: seq<int>) {
    if SignedKind(kind) then forall k :: 0 <= k < |rounded| ==> InI32(rounded[k])
    else (forall k :: 0 <= k < |rounded| ==> InI64(rounded[k])) && (kind.Deltas? ==> StepsFitI32(0, rounded))
  }

  function Casts(rounded: seq<int>): (wires: seq<i64>)
    ensures |wires| == |rounded|
  {
    seq(|rounded|, k requires 0 <= k < |rounded| => Q.Saturate(rounded[k]))
  }

  /** Casting to 64 bits and the codec carry the rounded integers unchanged if and only if they fit the kind. */
  lemma CarriedIffFits(kind: PacketType, rounded: seq<int>)
    requires IntegerKind(kind)
    ensures Decoded(kind, Casts(rounded)) == rounded <==> Fits(kind, rounded)
  {
    hide StepsFitI32, RunningSums, Differences;
    var wires := Casts(rounded);
    assert forall k :: 0 <= k < |rounded| ==> (wires[k] == rounded[k] <==> InI64(rounded[k]));
    if SignedKind(kind) {
      assert forall k :: 0 <= k < |rounded| ==> Decoded(kind, wires)[k] == AsI32(wires[k]);
    } else if kind.Deltas? {
      SumsAreWords(0, Differences(0, wires));
      DeltasExact(0, wires);
      assert forall k :: 0 <= k < |rounded| ==> InI64(Decoded(kind, wires)[k]);
      if forall k :: 0 <= k < |rounded| ==> InI64(rounded[k]) {
        assert wires == rounded;
      }
    } else if forall k :: 0 <= k < |rounded| ==> InI64(rounded[k]) {
      assert wires == rounded;
    }
  }

  ghost predicate Arrives(ch: Channel, rounded: seq<int>)
    requires ch.Valid()
  {
    Fits(ch.Kind(), rounded) && MultiplesInRange(ch.cfg, ch.cfg.quantized.value.scale, rounded) && Inflates(ch, Signed(Casts(rounded)))
  }

  lemma TransmitsCasts(ch: Channel, errors: map<nat, seq<real>>, event: Q.Event)
    requires ch.Valid() && Transmit(ch, errors, event).0.Ok?
    ensures var rounded := Q.RoundedOf(ch.cfg.quantized.value, errors, event);
            && Transmit(ch, errors, event).0 == EncodeCounted(ch, Signed(Casts(rounded)))
            && Q.Send(ch.cfg, errors, event.connection, event.values) == (Ok(Q.Saturated(rounded)), Transmit(ch, errors, event).1)
  {
    hide EncodeCounted, Q.SendFrom, Q.RoundedFrom, Q.Saturate;
    var rounded := Q.RoundedOf(ch.cfg.quantized.value, errors, event);
    Q.SendSaturates(ch.cfg, ch.cfg.quantized.value, Q.Residuals(errors, event.connection, |event.values|), event.values, 0);
    assert Wires(Q.Saturated(rounded)) == Casts(rounded);
  }

  lemma {:induction false} VarintsAreUnsigned(vals: seq<SonicValue>, previous: i64)
    requires EncodeVarints(UVarInt, vals, previous).Ok?
    ensures forall k :: 0 <= k < |vals| ==> Unsigned(vals[k]).Ok?
    decreases |vals|
  {
    if vals != [] {
      VarintsAreUnsigned(vals[1..], ToVarint(UVarInt, vals[0], previous).value.1);
      assert forall k :: 1 <= k < |vals| ==> vals[k] == vals[1..][k - 1];
    }
  }

  lemma {:induction false} ChunksAreUnsigned(p: Platform, kind: PacketType, vals: seq<SonicValue>)
    requires (kind.UByteType? || kind.UShorts?) && EncodeChunks(p, kind, vals).Ok?
    ensures forall k :: 0 <= k < |vals| ==> Unsigned(vals[k]).Ok?
  {
    if vals != [] {
      ChunksAreUnsigned(p, kind, vals[1..]);
      assert forall k :: 1 <= k < |vals| ==> vals[k] == vals[1..][k - 1];
    }
  }

  /** Whatever encodes holds the integers it was given. */
  lemma EncodedHolds(ch: Channel, wires: seq<i64>)
    requires ch.Valid() && EncodeCounted(ch, Signed(wires)).Ok?
    ensures Holds(Signed(wires), ch.Kind(), wires)
  {
    hide EncodeChunks, EncodeVarints;
    var items := Signed(wires);
    match ch.Kind()
    case UVarInt => VarintsAreUnsigned(items, 0);
    case UByteType | UShorts => ChunksAreUnsigned(ch.platform, ch.Kind(), items);
    case _ =>
  }

  /**
   * For every successful send: the receiver gets the integers nearest to what was sent, divided by the scale, if and only
   * if these integers fit the kind (32 bits for signed kinds, 64 bits for unsigned ones, 32-bit steps for deltas), their
   * multiples are in the range of the packet, and the payload inflates.
   */
  lemma ArrivesIff(ch: Channel, errors: map<nat, seq<real>>, event: Q.Event, numbers: seq<int>)
    requires ch.Valid() && Transmit(ch, errors, event).0.Ok? && Physical(ch, Signed(Casts(numbers)))
    requires RoundsTo(ch.cfg.quantized.value, errors, event, numbers)
    ensures Receive(ch, Transmit(ch, errors, event).0.value) == Ok(Multiples(ch.cfg.quantized.value.scale, numbers)) <==> Arrives(ch, numbers)
  {
    hide Receive, Transmit, EncodeCounted, Fits, Decoded, Holds, Physical, Inflates, Multiples, MultiplesInRange, Casts, Q.RoundedOf, RoundsTo;
    RoundedOfIsNearest(ch.cfg, ch.cfg.quantized.value, errors, event, numbers);
    TransmitsCasts(ch, errors, event);
    EncodedHolds(ch, Casts(numbers));
    CarriedIffFits(ch.Kind(), numbers);
    ReceivedExactlyIff(ch, Signed(Casts(numbers)), Casts(numbers), numbers);
  }

  lemma EncodesCountedIff(ch: Channel, items: seq<SonicValue>)
    requires ch.Valid()
    ensures EncodeCounted(ch, items).Ok? <==>
            ch.definition.dataMin.limit <= |items| <= ch.definition.dataMax.limit && forall k :: 0 <= k < |items| ==> IsTaken(ch.Kind(), items[k])
  {
    hide EncodeType, IsTaken, Platform.Valid;
    EncodesIff(ch.platform, ch.Kind(), Array(items), items, Get(ch.definition.enumData, 0));
  }

  /** The kind takes the 64-bit number closest to the one that was rounded to. */
  ghost predicate TakesClamped(kind: PacketType, n: int) {
    exists wire :: Clamped(n, wire) && Takes(kind, wire)
  }

  lemma TakesCast(kind: PacketType, rounded: seq<int>, k: nat)
    requires k < |rounded|
    ensures IsTaken(kind, Signed(Casts(rounded))[k]) <==> TakesClamped(kind, rounded[k])
  {
    hide Q.Saturate, Takes;
    var wire := Casts(rounded)[k];
    SaturateClamps(rounded[k], wire);
    assert Denotes(Signed(Casts(rounded))[k], wire) && forall n :: Denotes(Signed(Casts(rounded))[k], n) ==> n == wire;
    forall other | Clamped(rounded[k], other) ensures other == wire {
      SaturateClamps(rounded[k], other);
    }
  }

  /** A send succeeds if and only if every value is in range, their number keeps to the limits, and the kind takes what they round to. */
  lemma TransmitsIff(ch: Channel, errors: map<nat, seq<real>>, event: Q.Event, numbers: seq<int>)
    requires ch.Valid() && RoundsTo(ch.cfg.quantized.value, errors, event, numbers)
    ensures Transmit(ch, errors, event).0.Ok? <==>
            && (forall f :: 0 <= f < |event.values| ==> InsideRange(ch.cfg.range, Q.AsReal(event.values[f])))
            && ch.definition.dataMin.limit <= |event.values| <= ch.definition.dataMax.limit
            && (forall f :: 0 <= f < |numbers| ==> TakesClamped(ch.Kind(), numbers[f]))
  {
    hide EncodeCounted, Q.SendFrom, Q.RoundedFrom, Q.Saturate, RoundsTo, InsideRange, IsTaken, TakesClamped, Platform.Valid;
    var q := ch.cfg.quantized.value;
    SendRounds(ch.cfg, q, errors, event, numbers);
    RoundsCount(q, errors, event, numbers);
    RoundedOfIsNearest(ch.cfg, q, errors, event, numbers);
    if Q.Send(ch.cfg, errors, event.connection, event.values).0.Ok? {
      Q.SendSaturates(ch.cfg, q, Q.Residuals(errors, event.connection, |event.values|), event.values, 0);
      assert Wires(Q.Saturated(numbers)) == Casts(numbers);
      EncodesCountedIff(ch, Signed(Casts(numbers)));
      forall f | 0 <= f < |numbers| ensures IsTaken(ch.Kind(), Signed(Casts(numbers))[f]) <==> TakesClamped(ch.Kind(), numbers[f]) {
        TakesCast(ch.Kind(), numbers, f);
      }
    }
  }

  // ---- runs

  /** A run in which every packet is sent and received: what the receiver gets for each, and the residuals. */
  ghost function Transfer(ch: Channel, errors: map<nat, seq<real>>, events: seq<Q.Event>): (r: Result<seq<seq<Q.Number>>>)
    requires ch.Valid()
    ensures r.Ok? ==> |r.value| == |events|
    decreases |events|
  {
    if events == [] then Ok([])
    else
      var sent := Transmit(ch, errors, events[0]);
      var bytes :- sent.0;
      var got :- Receive(ch, bytes);
      Prepend([got], Transfer(ch, sent.1, events[1..]))
  }

  /** A send succeeds, and the integers nearest to what is sent arrive, as the sender can tell. */
  ghost predicate SendArrives(ch: Channel, errors: map<nat, seq<real>>, event: Q.Event)
    requires ch.Valid()
  {
    && Transmit(ch, errors, event).0.Ok?
    && exists numbers :: RoundsTo(ch.cfg.quantized.value, errors, event, numbers) && Physical(ch, Signed(Casts(numbers))) && Arrives(ch, numbers)
  }

  lemma SendArrivesRounded(ch: Channel, errors: map<nat, seq<real>>, event: Q.Event)
    requires ch.Valid() && SendArrives(ch, errors, event)
    ensures var numbers := Q.RoundedOf(ch.cfg.quantized.value, errors, event);
            && RoundsTo(ch.cfg.quantized.value, errors, event, numbers)
            && Receive(ch, Transmit(ch, errors, event).0.value) == Ok(Multiples(ch.cfg.quantized.value.scale, numbers))
  {
    hide Receive, Transmit, Physical, Arrives, Multiples, Casts, Q.RoundedOf, RoundsTo;
    var numbers :| RoundsTo(ch.cfg.quantized.value, errors, event, numbers) && Physical(ch, Signed(Casts(numbers))) && Arrives(ch, numbers);
    RoundedOfIsNearest(ch.cfg, ch.cfg.quantized.value, errors, event, numbers);
    ArrivesIff(ch, errors, event, numbers);
  }

  ghost predicate AllArrive(ch: Channel, errors: map<nat, seq<real>>, events: seq<Q.Event>)
    requires ch.Valid()
    decreases |events|
  {
    events == [] || (SendArrives(ch, errors, events[0]) && AllArrive(ch, Transmit(ch, errors, events[0]).1, events[1..]))
  }

  /** What the receiver adds up in field `f` on a connection. */
  function SumReceived(events: seq<Q.Event>, got: seq<seq<Q.Number>>, c: nat, f: nat): real
    requires |events| == |got|
  {
    if events == [] then 0.0
    else
      var here := if events[0].connection == c then Q.Field(got[0], f) else 0.0;
      here + SumReceived(events[1..], got[1..], c, f)
  }

  /** A named product, so that sums of products can be taken apart one at a time. */
  function Scaled(scale: real, x: real): real {
    scale * x
  }

  lemma ScaledSum(scale: real, here: real, rest: real)
    ensures Scaled(scale, here + rest) == Scaled(scale, here) + Scaled(scale, rest) && Scaled(scale, 0.0) == 0.0
  {
    Q.Distribute(scale, here, rest);
  }

  lemma FieldOfMultiples(scale: real, numbers: seq<int>, f: nat)
    requires scale > 0.0
    ensures Scaled(scale, Q.Field(Multiples(scale, numbers), f)) == Q.WholeField(numbers, f)
  {
    if f < |numbers| {
      assert scale * (numbers[f] as real / scale) == numbers[f] as real;
    }
  }

  function MultiplesOfAll(scale: real, numbers: seq<seq<int>>): (r: seq<seq<Q.Number>>)
    requires scale > 0.0
    ensures |r| == |numbers| && forall k :: 0 <= k < |r| ==> r[k] == Multiples(scale, numbers[k])
  {
    seq(|numbers|, k requires 0 <= k < |numbers| => Multiples(scale, numbers[k]))
  }

  lemma {:induction false} SumOfMultiples(scale: real, events: seq<Q.Event>, numbers: seq<seq<int>>, c: nat, f: nat)
    requires scale > 0.0 && |events| == |numbers|
    ensures Scaled(scale, SumReceived(events, MultiplesOfAll(scale, numbers), c, f)) == Q.SumWhole(events, numbers, c, f)
  {
    hide Scaled, Multiples, Q.Field, Q.WholeField;
    if events == [] {
      ScaledSum(scale, 0.0, 0.0);
    } else {
      SumOfMultiples(scale, events[1..], numbers[1..], c, f);
      FieldOfMultiples(scale, numbers[0], f);
      assert MultiplesOfAll(scale, numbers)[1..] == MultiplesOfAll(scale, numbers[1..]);
      ScaledSum(scale, if events[0].connection == c then Q.Field(Multiples(scale, numbers[0]), f) else 0.0,
                SumReceived(events[1..], MultiplesOfAll(scale, numbers[1..]), c, f));
    }
  }

  /** A run that arrives is received as the multiples of what it was rounded to, packet by packet. */
  lemma {:induction false} TransferIsRounded(ch: Channel, errors: map<nat, seq<real>>, events: seq<Q.Event>)
    requires ch.Valid() && AllArrive(ch, errors, events)
    ensures var q := ch.cfg.quantized.value;
            Transfer(ch, errors, events) == Ok(MultiplesOfAll(q.scale, Q.RoundedRun(ch.cfg, q, errors, events)))
    decreases |events|
  {
    hide Platform.Valid, ShapesMatch, IntegerKind, Transfer, Transmit, SendArrives, Q.RoundedOf, Q.Send, Multiples;
    var q := ch.cfg.quantized.value;
    if events == [] {
      NothingTransferred(ch, errors);
      assert MultiplesOfAll(q.scale, []) == [];
    } else {
      var after := Transmit(ch, errors, events[0]).1;
      TransmitsCasts(ch, errors, events[0]) by { assert Transmit(ch, errors, events[0]).0.Ok? by { ArrivesIsSent(ch, errors, events[0]); } }
      TransferIsRounded(ch, after, events[1..]);
      TransferStep(ch, errors, events);
      var first, rest := Q.RoundedOf(q, errors, events[0]), Q.RoundedRun(ch.cfg, q, after, events[1..]);
      assert MultiplesOfAll(q.scale, [first] + rest) == [Multiples(q.scale, first)] + MultiplesOfAll(q.scale, rest);
    }
  }

  lemma ArrivesIsSent(ch: Channel, errors: map<nat, seq<real>>, event: Q.Event)
    requires ch.Valid() && SendArrives(ch, errors, event)
    ensures Transmit(ch, errors, event).0.Ok?
    ensures Q.Send(ch.cfg, errors, event.connection, event.values).0.Ok?
    ensures Q.Send(ch.cfg, errors, event.connection, event.values).1 == Transmit(ch, errors, event).1
  {
  }

  /** Sending such a run succeeds. */
  lemma {:induction false} SendsSucceed(ch: Channel, errors: map<nat, seq<real>>, events: seq<Q.Event>)
    requires ch.Valid() && AllArrive(ch, errors, events)
    ensures Q.Run(ch.cfg, errors, events).Ok?
    decreases |events|
  {
    hide Channel.Valid, Transmit, SendArrives, Q.Send;
    if events != [] {
      ArrivesIsSent(ch, errors, events[0]);
      SendsSucceed(ch, Transmit(ch, errors, events[0]).1, events[1..]);
    }
  }

  lemma NothingTransferred(ch: Channel, errors: map<nat, seq<real>>)
    requires ch.Valid()
    ensures Transfer(ch, errors, []) == Ok([])
  {
  }

  /** A packet that arrives adds the multiples of what it was rounded to. */
  lemma TransferStep(ch: Channel, errors: map<nat, seq<real>>, events: seq<Q.Event>)
    requires ch.Valid() && events != [] && AllArrive(ch, errors, events)
    ensures var (scale, rounded) := (ch.cfg.quantized.value.scale, Q.RoundedOf(ch.cfg.quantized.value, errors, events[0]));
            Transfer(ch, errors, events) == Prepend([Multiples(scale, rounded)], Transfer(ch, Transmit(ch, errors, events[0]).1, events[1..]))
  {
    hide Channel.Valid, Transmit, Receive, SendArrives, Q.RoundedOf, Multiples;
    SendArrivesRounded(ch, errors, events[0]);
    ArrivesIsSent(ch, errors, events[0]);
  }

  /**
   * Quantization does not drift: over every run of sends that succeed and arrive, the receiver decodes all of them, and
   * on every connection and in every field the sum it decodes is within half a step of what was sent.
   */
  lemma NoDrift(ch: Channel, events: seq<Q.Event>, c: nat, f: nat)
    requires ch.Valid() && ch.cfg.quantized.value.trackError && AllArrive(ch, map[], events)
    ensures Transfer(ch, map[], events).Ok?
    ensures var scale := ch.cfg.quantized.value.scale;
            var difference := Q.SumSent(events, c, f) - SumReceived(events, Transfer(ch, map[], events).value, c, f);
            -1.0 / (2.0 * scale) <= difference <= 1.0 / (2.0 * scale)
  {
    hide Platform.Valid, ShapesMatch, IntegerKind, Scaled, Transfer, AllArrive, SumReceived, Q.SumSent, Q.SumWhole, Q.RoundedRun, Q.Run;
    var q := ch.cfg.quantized.value;
    TransferIsRounded(ch, map[], events);
    SendsSucceed(ch, map[], events);
    SumOfMultiples(q.scale, events, Q.RoundedRun(ch.cfg, q, map[], events), c, f);
    Q.RunBalances(ch.cfg, q, map[], events, c, f);
    Q.SmallResidual(Q.Run(ch.cfg, map[], events).value.1, c, f);
    WithinHalfAStep(q.scale, Q.SumSent(events, c, f), SumReceived(events, Transfer(ch, map[], events).value, c, f));
  }

  lemma WithinHalfAStep(scale: real, sent: real, received: real)
    requires scale > 0.0 && -0.5 <= scale * sent - Scaled(scale, received) <= 0.5
    ensures -1.0 / (2.0 * scale) <= sent - received <= 1.0 / (2.0 * scale)
  {
    Q.Distribute(scale, sent, received);
    Q.BoundByScale(scale, sent - received);
  }

  /** Each number is within half a step of the one sent. */
  predicate CloseTo(scale: real, sent: seq<Q.Number>, got: seq<Q.Number>)
    requires scale > 0.0
  {
    && |got| == |sent|
    && forall f :: 0 <= f < |got| ==> -1.0 / (2.0 * scale) <= Q.AsReal(got[f]) - Q.AsReal(sent[f]) <= 1.0 / (2.0 * scale)
  }

  lemma RoundedIsClose(q: Q.Quantized, errors: map<nat, seq<real>>, event: Q.Event, numbers: seq<int>)
    requires q.scale > 0.0 && !q.trackError && RoundsTo(q, errors, event, numbers)
    ensures CloseTo(q.scale, event.values, Multiples(q.scale, numbers))
  {
    forall f | 0 <= f < |numbers|
      ensures -1.0 / (2.0 * q.scale) <= numbers[f] as real / q.scale - Q.AsReal(event.values[f]) <= 1.0 / (2.0 * q.scale)
    {
      QuotientIsClose(q.scale, Q.AsReal(event.values[f]), Steps(q, errors, event.connection, event.values, f), numbers[f]);
    }
  }

  lemma QuotientIsClose(scale: real, value: real, steps: real, number: int)
    requires scale > 0.0 && steps == scale * value && -0.5 <= steps - number as real <= 0.5
    ensures -1.0 / (2.0 * scale) <= number as real / scale - value <= 1.0 / (2.0 * scale)
  {
    var quotient := number as real / scale;
    assert scale * quotient == number as real;
    Q.Distribute(scale, quotient, value);
    Q.BoundByScale(scale, quotient - value);
  }

  /**
   * Without tracking there is nothing to add up: over every run of sends that succeed and arrive, every value decoded is
   * within half a step of the one sent.
   */
  lemma {:induction false} StatelessIsClose(ch: Channel, errors: map<nat, seq<real>>, events: seq<Q.Event>)
    requires ch.Valid() && !ch.cfg.quantized.value.trackError && AllArrive(ch, errors, events)
    ensures Transfer(ch, errors, events).Ok?
    ensures forall i :: 0 <= i < |events| ==> CloseTo(ch.cfg.quantized.value.scale, events[i].values, Transfer(ch, errors, events).value[i])
    decreases |events|
  {
    hide Transfer, Transmit, SendArrives, Q.RoundedOf, Multiples, CloseTo, RoundsTo, Platform.Valid, ShapesMatch;
    if events == [] {
      NothingTransferred(ch, errors);
    } else {
      var q, after := ch.cfg.quantized.value, Transmit(ch, errors, events[0]).1;
      SendArrivesRounded(ch, errors, events[0]);
      RoundedIsClose(q, errors, events[0], Q.RoundedOf(q, errors, events[0]));
      TransferStep(ch, errors, events);
      StatelessIsClose(ch, after, events[1..]);
      var rest := Transfer(ch, after, events[1..]).value;
      assert forall i :: 1 <= i < |events| ==> events[i] == events[1..][i - 1] && Transfer(ch, errors, events).value[i] == rest[i - 1];
    }
  }

  /** And residuals never change, whether sends succeed or not. */
  lemma StatelessKeepsResiduals(cfg: Q.Config, q: Q.Quantized, errors: map<nat, seq<real>>, event: Q.Event, c: nat, f: nat)
    requires cfg.quantized == Some(q) && !q.trackError
    ensures Q.ResidualOf(Q.Send(cfg, errors, event.connection, event.values).1, c, f) == Q.ResidualOf(errors, c, f)
  {
    hide Q.Send, Q.RoundedOf, RoundsTo;
    RoundedOfIsNearest(cfg, q, errors, event, Q.RoundedOf(q, errors, event));
    SendRounds(cfg, q, errors, event, Q.RoundedOf(q, errors, event));
  }

  // ---- what happens otherwise

  /** One number a packet, at scale 1. */
  function Example(p: Platform, kind: PacketType, range: Q.ValueRange): Channel {
    Channel(p, PacketDef(SingleType(kind), SingleLimit(1), SingleLimit(1), 0, 10, false, []), Q.Config(Some(Q.Quantized(1.0, true)), range))
  }

  /** Sending one number at scale 1 on connection 0. */
  lemma OneSent(cfg: Q.Config, errors: map<nat, seq<real>>, value: real, residual: real)
    requires cfg.quantized == Some(Q.Quantized(1.0, true)) && !cfg.OutOfRange(value) && Q.Residuals(errors, 0, 1) == [residual]
    ensures var rounded := Q.Round(value + residual);
            Q.Send(cfg, errors, 0, [Q.Fractional(value)]) ==
            (Ok([Q.Whole(Q.Saturate(rounded))]), errors[0 := [value + residual - rounded as real]])
  {
    hide Q.Round, Q.Saturate;
    var values, rounded := [Q.Fractional(value)], Q.Round(value + residual);
    var left := value + residual - rounded as real;
    assert value * 1.0 == value;
    assert Q.Quantize(Q.Quantized(1.0, true), value, residual) == (rounded, left);
    assert [residual][0 := left] == [left];
    assert Q.SendFrom(cfg, [left], values, 1) == (Ok([]), [left]);
    assert [Q.Whole(Q.Saturate(rounded))] + [] == [Q.Whole(Q.Saturate(rounded))];
  }

  /** Sending a whole number leaves nothing over. */
  lemma WholeSent(cfg: Q.Config, number: int)
    requires cfg.quantized == Some(Q.Quantized(1.0, true)) && !cfg.OutOfRange(number as real)
    ensures Q.Send(cfg, map[], 0, [Q.Fractional(number as real)]) == (Ok([Q.Whole(Q.Saturate(number))]), map[0 := [0.0]])
  {
    hide Q.Send, Q.Saturate;
    OneSent(cfg, map[], number as real, 0.0);
    RoundIsNearest(number as real, number);
  }

  /** The way of one integer through a varint packet. */
  lemma OneArrives(p: Platform, kind: PacketType, range: Q.ValueRange, number: i64)
    requires p.Valid() && (kind.VarInt? || (kind.UVarInt? && number >= 0))
    ensures var ch := Example(p, kind, range);
            && ch.Valid() && EncodeCounted(ch, Signed([number])).Ok? && Physical(ch, Signed([number])) && Inflates(ch, Signed([number]))
            && Receive(ch, EncodeCounted(ch, Signed([number])).value)
               == Q.ReceiveAll(ch.cfg, [Q.Whole(if kind.VarInt? then AsI32(number) else number)])
  {
    hide Varint.Encode, Huffman.WellFormed, AsI32, Q.ReceiveAll;
    var ch, items := Example(p, kind, range), Signed([number]);
    var word := if kind.VarInt? then ZigzagEncode(number) else number;
    assert items == [I64(number)] && items[1..] == [];
    assert EncodeVarints(kind, [], if kind.VarInt? then number else 0) == Ok([]);
    assert EncodeVarints(kind, items, 0) == Ok(Varint.Encode(word) + []);
    Varint.EncodeReserve(word);
    assert Payload(p, ch.definition, Array(items)) == EncodePacket(p, ch.definition, Array(items));
    ReceiveIsDecoded(ch, items, [number]);
    assert Wholes(Decoded(kind, [number])) == [Q.Whole(if kind.VarInt? then AsI32(number) else number)];
  }

  lemma OneReceived(cfg: Q.Config, number: int)
    requires cfg.quantized == Some(Q.Quantized(1.0, true))
    ensures Q.ReceiveAll(cfg, [Q.Whole(number)]) == if cfg.OutOfRange(number as real) then Err(InvalidData) else Ok([Q.Fractional(number as real)])
  {
    assert number as real / 1.0 == number as real;
    assert [Q.Whole(number)][1..] == [];
    assert [Q.Fractional(number as real)] + [] == [Q.Fractional(number as real)];
  }

  const NO_RANGE: Q.ValueRange := Q.ValueRange(None, None)

  /** A varint packet sends 2^31 with nothing left over, and the receiver gets -2^31. */
  lemma VarintWraps(p: Platform)
    requires p.Valid()
    ensures var ch := Example(p, VarInt, NO_RANGE);
            && ch.Valid()
            && var (sent, after) := Transmit(ch, map[], Q.Event(0, [Q.Fractional(0x8000_0000 as real)]));
            && sent.Ok? && after == map[0 := [0.0]]
            && Receive(ch, sent.value) == Ok([Q.Fractional(-0x8000_0000 as real)])
  {
    hide EncodeCounted, Receive, Platform.Valid, Q.Send;
    WholeSent(Example(p, VarInt, NO_RANGE).cfg, 0x8000_0000);
    OneArrives(p, VarInt, NO_RANGE, 0x8000_0000);
    OneReceived(Example(p, VarInt, NO_RANGE).cfg, -0x8000_0000);
    assert Wires([Q.Whole(0x8000_0000)]) == [0x8000_0000];
  }

  /** An unsigned packet sends 2^64 with nothing left over, and the receiver gets 2^63 - 1. */
  lemma SaturatedSendDrifts(p: Platform)
    requires p.Valid()
    ensures var ch := Example(p, UVarInt, NO_RANGE);
            && ch.Valid()
            && var (sent, after) := Transmit(ch, map[], Q.Event(0, [Q.Fractional(0x1_0000_0000_0000_0000 as real)]));
            && sent.Ok? && after == map[0 := [0.0]]
            && Receive(ch, sent.value) == Ok([Q.Fractional(0x7FFF_FFFF_FFFF_FFFF as real)])
  {
    hide EncodeCounted, Receive, Platform.Valid, Q.Send;
    WholeSent(Example(p, UVarInt, NO_RANGE).cfg, 0x1_0000_0000_0000_0000);
    OneArrives(p, UVarInt, NO_RANGE, 0x7FFF_FFFF_FFFF_FFFF);
    OneReceived(Example(p, UVarInt, NO_RANGE).cfg, 0x7FFF_FFFF_FFFF_FFFF);
    assert Wires([Q.Whole(0x7FFF_FFFF_FFFF_FFFF)]) == [0x7FFF_FFFF_FFFF_FFFF];
  }

  /** In the range from -1 to 10, sending -0.5 and then 10 succeeds; the residual makes it 11, which the receiver refuses. */
  lemma FeedbackLeavesRange(p: Platform)
    requires p.Valid()
    ensures var ch := Example(p, VarInt, Q.ValueRange(Some(-1.0), Some(10.0)));
            && ch.Valid()
            && var (first, between) := Transmit(ch, map[], Q.Event(0, [Q.Fractional(-0.5)]));
            var (second, after) := Transmit(ch, between, Q.Event(0, [Q.Fractional(10.0)]));
            && first.Ok? && Receive(ch, first.value) == Ok([Q.Fractional(-1.0)])
            && second.Ok? && Receive(ch, second.value) == Err(InvalidData)
  {
    hide EncodeCounted, Receive, Platform.Valid;
    var range := Q.ValueRange(Some(-1.0), Some(10.0));
    var cfg := Example(p, VarInt, range).cfg;
    OneSent(cfg, map[], -0.5, 0.0);
    OneSent(cfg, map[0 := [0.5]], 10.0, 0.5);
    assert map[][0 := [0.5]] == map[0 := [0.5]];
    OneArrives(p, VarInt, range, -1);
    OneArrives(p, VarInt, range, 11);
    OneReceived(cfg, -1);
    OneReceived(cfg, 11);
    assert Wires([Q.Whole(-1)]) == [-1] && Wires([Q.Whole(11)]) == [11];
  }
}
