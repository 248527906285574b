/**
 * Rereferencing (`rust/src/connection.rs`): a packet with the same value as the one before goes out empty, and the
 * receiver repeats what it decoded last. Ordinary, unquantized packets over a link that neither loses nor reorders.
 */
module Rereference {
  import opened Primitives
  import opened Schema
  import opened Codec
  import opened PacketRoundTrip
  import opened JsonValues
  import CodecLoops
  import CodecRoundTrip
  import Bits
  import Hex
  import Huffman
  import Json
  import JsonLoops
  import Varint

  datatype Packet = Packet(definition: PacketDef, rereference: bool)

  predicate PassesThrough(kind: PacketType) {
    kind.NoneType? || kind.Raw? || kind.Hex?
  }

  /** `prepare_send` for packets without schema and quantization: values are sent as a list, in JSON as its document. */
  function Prepared(js: JsonSide, kind: PacketType, value: SonicValue): Result<SonicValue> {
    if PassesThrough(kind) then Ok(value)
    else if !kind.Reserved16? then Ok(Array(Items(value)))
    else
      var document :- ToJson(js, Array(Items(value)));
      var bytes :- Json.Encode(js.coding, document);
      Ok(Bytes(bytes))
  }

  /** The count of `validate_logical_count`. */
  function LogicalCount(kind: PacketType, value: SonicValue): nat {
    match (kind, value)
    case (Raw, Bytes(bytes)) => |bytes|
    case (Hex, String(s)) => CeilDiv(Hex.Utf8Length(s), 2)
    case (_, Array(items)) => |items|
    case (NoneType, Null) => 0
    case (NoneType, Undefined) => 0
    case _ => 1
  }

  /** `Packet::encode` */
  function Encode(p: Platform, js: JsonSide, packet: PacketDef, value: SonicValue): Result<seq<byte>>
    requires packet.packetType.SingleType?
  {
    var kind := packet.packetType.kind;
    var prepared :- Prepared(js, kind, value);
    if packet.dataMin.SingleLimit? && packet.dataMax.SingleLimit?
       && (LogicalCount(kind, prepared) < packet.dataMin.limit || LogicalCount(kind, prepared) > packet.dataMax.limit)
    then Err(InvalidData)
    else EncodePacket(p, packet, prepared)
  }

  /** `finish_receive` for packets without schema and quantization. */
  function Finish(js: JsonSide, kind: PacketType, value: SonicValue): Result<SonicValue> {
    if PassesThrough(kind) then Ok(value)
    else if !kind.Reserved16? then Ok(Array(Items(value)))
    else if !value.Bytes? then Err(InvalidData)
    else
      var document :- Json.Decode(js.coding, value.bytes);
      Ok(Array(Items(FromJson(document))))
  }

  /** `Packet::decode` */
  ghost function Decode(p: Platform, js: JsonSide, packet: PacketDef, bytes: seq<byte>): Result<SonicValue>
    requires packet.packetType.SingleType?
  {
    var valid :- ValidatePacket(p, packet, bytes);
    var value :- DecodePacket(p, packet, bytes);
    Finish(js, packet.packetType.kind, value)
  }

  // ---- no encoding is empty

  lemma ElementsAreNotEmpty(p: Platform, kind: PacketType, vals: seq<SonicValue>, package: EnumPackage, previous: i64)
    requires p.Valid() && vals != []
    ensures Width(kind) > 0 && EncodeChunks(p, kind, vals).Ok? ==> EncodeChunks(p, kind, vals).value != []
    ensures IsVarKind(kind) && EncodeVarints(kind, vals, previous).Ok? ==> EncodeVarints(kind, vals, previous).value != []
    ensures EncodeEnums(p, package, vals).Ok? ==> EncodeEnums(p, package, vals).value != []
  {
    hide Huffman.WellFormed, Varint.Encode;
    if Width(kind) > 0 && EncodeChunks(p, kind, vals).Ok? {
      ChunksLength(p, kind, vals);
    }
    if EncodeEnums(p, package, vals).Ok? {
      EnumsLength(p, package, vals);
    }
  }

  lemma DocumentIsNotEmpty(c: Json.Coding, v: Json.Value)
    ensures Json.Encode(c, v).Ok? ==> |Json.Encode(c, v).value| >= 2
  {
    hide Json.EncodeValue, Varint.Encode;
  }

  /** A sector with at least one value is never empty, and neither is a JSON document. */
  lemma SectorIsNotEmpty(p: Platform, js: JsonSide, kind: PacketType, value: SonicValue, enums: Option<EnumPackage>)
    requires p.Valid() && Prepared(js, kind, value).Ok? && EncodeType(p, kind, Prepared(js, kind, value).value, enums).Ok?
    requires LogicalCount(kind, Prepared(js, kind, value).value) >= 1
    ensures EncodeType(p, kind, Prepared(js, kind, value).value, enums).value != []
  {
    hide EncodeChunks, EncodeVarints, EncodeEnums, Huffman.WellFormed, Varint.Encode, Json.Encode, ToJson;
    var prepared := Prepared(js, kind, value).value;
    var vals := Items(prepared);
    match kind
    case ByteType | UByteType | Shorts | UShorts | Floats | Doubles | VarInt | UVarInt | Deltas =>
      ElementsAreNotEmpty(p, kind, vals, EnumPackage("", []), 0);
    case Enums =>
      ElementsAreNotEmpty(p, kind, vals, enums.value, 0);
    case Booleans =>
      assert |ToBools(vals).value| >= 1;
    case StringsUtf16 =>
      assert |ToStrings(vals).value| >= 1;
    case Reserved16 =>
      DocumentIsNotEmpty(js.coding, ToJson(js, Array(Items(value))).value);
    case Hex =>
      assert prepared.s != "" by { assert Hex.Utf8Length("") == 0; }
    case NoneType | Raw | StringsAscii =>
  }

  /** What `build` asks of a packet that rereferences, and a compressor that never produces nothing. */
  ghost predicate Allowed(p: Platform, packet: Packet) {
    && packet.definition.packetType.SingleType? && ShapesMatch(packet.definition)
    && (packet.rereference ==> packet.definition.dataMin.limit >= 1)
    && (forall bytes :: p.deflate.compress(bytes) != [])
  }

  lemma EncodingIsNotEmpty(p: Platform, js: JsonSide, packet: Packet, value: SonicValue)
    requires p.Valid() && Allowed(p, packet) && packet.rereference && Encode(p, js, packet.definition, value).Ok?
    ensures Encode(p, js, packet.definition, value).value != []
  {
    hide EncodeType, Prepared, LogicalCount, Huffman.WellFormed;
    SectorIsNotEmpty(p, js, packet.definition.packetType.kind, value, Get(packet.definition.enumData, 0));
  }

  // ---- the two caches

  datatype Frame = Frame(key: nat, payload: seq<byte>)

  /** The negotiated packets, and `==` on values: equal numbers may differ in their bits. */
  datatype Link = Link(platform: Platform, js: JsonSide, packets: map<nat, Packet>, same: (SonicValue, SonicValue) -> bool) {
    ghost predicate Valid() {
      && platform.Valid() && js.coding.Valid()
      && forall key :: key in packets ==> Allowed(platform, packets[key])
    }

    predicate Sends(key: nat) {
      key in packets && packets[key].definition.packetType.SingleType?
    }

    function EncodeFor(key: nat, value: SonicValue): Result<seq<byte>>
      requires Sends(key)
    {
      Encode(platform, js, packets[key].definition, value)
    }

    ghost function DecodeFor(key: nat, payload: seq<byte>): Result<SonicValue>
      requires Sends(key)
    {
      Decode(platform, js, packets[key].definition, payload)
    }
  }

  predicate Repeats(link: Link, lastSent: map<nat, SonicValue>, key: nat, value: SonicValue)
    requires link.Sends(key)
  {
    link.packets[key].rereference && key in lastSent && link.same(lastSent[key], value)
  }

  /** `send`: batched packets are refused; the cache is written before the value is encoded. */
  function Send(link: Link, lastSent: map<nat, SonicValue>, key: nat, value: SonicValue): (Result<Frame>, map<nat, SonicValue>)
    requires link.Sends(key)
  {
    if link.packets[key].definition.dataBatching != 0 then (Err(InvalidData), lastSent)
    else if Repeats(link, lastSent, key, value) then (Ok(Frame(key, [])), lastSent)
    else
      var after := if link.packets[key].rereference then lastSent[key := value] else lastSent;
      match link.EncodeFor(key, value)
      case Ok(payload) => (Ok(Frame(key, payload)), after)
      case Err(e) => (Err(e), after)
  }

  /** `recv_inner` */
  ghost function Receive(link: Link, lastReceived: map<nat, SonicValue>, frame: Frame): (Result<SonicValue>, map<nat, SonicValue>) {
    if !link.Sends(frame.key) then (Err(InvalidData), lastReceived)
    else if link.packets[frame.key].rereference && frame.payload == [] then
      (if frame.key in lastReceived then Ok(lastReceived[frame.key]) else Err(InvalidData), lastReceived)
    else
      match link.DecodeFor(frame.key, frame.payload)
      case Ok(value) => (Ok(value), if link.packets[frame.key].rereference then lastReceived[frame.key := value] else lastReceived)
      case Err(e) => (Err(e), lastReceived)
  }

  datatype Sending = Sending(key: nat, value: SonicValue)

  /** The packet is not batched, and the full encoding of the value decodes. */
  ghost predicate Transmissible(link: Link, s: Sending) {
    && link.Sends(s.key) && link.packets[s.key].definition.dataBatching == 0
    && match link.EncodeFor(s.key, s.value)
       case Ok(payload) => link.DecodeFor(s.key, payload).Ok?
       case Err(_) => false
  }

  ghost predicate AllTransmissible(link: Link, run: seq<Sending>) {
    forall i :: 0 <= i < |run| ==> Transmissible(link, run[i])
  }

  /** What the full encoding of a value decodes to. */
  ghost function Full(link: Link, s: Sending): SonicValue
    requires Transmissible(link, s)
  {
    link.DecodeFor(s.key, link.EncodeFor(s.key, s.value).value).value
  }

  ghost function AllFull(link: Link, run: seq<Sending>): seq<Result<SonicValue>>
    requires AllTransmissible(link, run)
  {
    if run == [] then []
    else
      assert Transmissible(link, run[0]);
      [Ok(Full(link, run[0]))] + AllFull(link, run[1..])
  }

  /** What the receiver makes of a run of sends, frame by frame. */
  ghost function Transfer(link: Link, lastSent: map<nat, SonicValue>, lastReceived: map<nat, SonicValue>, run: seq<Sending>): seq<Result<SonicValue>>
    requires AllTransmissible(link, run)
    decreases |run|
  {
    if run == [] then []
    else
      assert Transmissible(link, run[0]);
      var sent := Send(link, lastSent, run[0].key, run[0].value);
      var received := match sent.0 case Ok(frame) => Receive(link, lastReceived, frame) case Err(e) => (Err(e), lastReceived);
      [received.0] + Transfer(link, sent.1, received.1, run[1..])
  }

  /** Whatever the sender remembers, the receiver remembers its decoding. */
  ghost predicate InStep(link: Link, lastSent: map<nat, SonicValue>, lastReceived: map<nat, SonicValue>) {
    forall key :: key in lastSent ==>
      && Transmissible(link, Sending(key, lastSent[key]))
      && key in lastReceived && lastReceived[key] == Full(link, Sending(key, lastSent[key]))
  }

  ghost predicate Remembered(link: Link, lastSent: map<nat, SonicValue>) {
    forall key :: key in lastSent ==> Transmissible(link, Sending(key, lastSent[key]))
  }

  /** Every value of a run that goes out as a repetition decodes as the value it repeats. */
  ghost predicate RepetitionsAgree(link: Link, lastSent: map<nat, SonicValue>, run: seq<Sending>)
    requires AllTransmissible(link, run) && Remembered(link, lastSent)
    decreases |run|
  {
    run == [] ||
    (assert Transmissible(link, run[0]);
     && (Repeats(link, lastSent, run[0].key, run[0].value) ==>
           Full(link, Sending(run[0].key, lastSent[run[0].key])) == Full(link, run[0]))
     && RepetitionsAgree(link, Send(link, lastSent, run[0].key, run[0].value).1, run[1..]))
  }

  /** One frame: the value itself, or the decoding of the value it repeats. */
  lemma OneTransfer(link: Link, lastSent: map<nat, SonicValue>, lastReceived: map<nat, SonicValue>, s: Sending)
    requires link.Valid() && InStep(link, lastSent, lastReceived) && Transmissible(link, s)
    ensures var sent := Send(link, lastSent, s.key, s.value);
            && sent.0.Ok?
            && var received := Receive(link, lastReceived, sent.0.value);
            && received.0 == Ok(Full(link, if Repeats(link, lastSent, s.key, s.value) then Sending(s.key, lastSent[s.key]) else s))
            && InStep(link, sent.1, received.1)
  {
    hide Encode, Decode, Platform.Valid, Allowed;
    var packet := link.packets[s.key];
    if packet.rereference && !Repeats(link, lastSent, s.key, s.value) {
      EncodingIsNotEmpty(link.platform, link.js, packet, s.value);
    }
  }

  /**
   * When rereferencing is transparent: for every run of values that encode and decode, the receiver gets for each of
   * them what its full encoding decodes to, in order, if and only if every value that goes out as a repetition decodes
   * as the value it repeats.
   */
  lemma {:induction false} TransparentIff(link: Link, lastSent: map<nat, SonicValue>, lastReceived: map<nat, SonicValue>, run: seq<Sending>)
    requires link.Valid() && InStep(link, lastSent, lastReceived) && AllTransmissible(link, run)
    ensures Transfer(link, lastSent, lastReceived, run) == AllFull(link, run) <==> RepetitionsAgree(link, lastSent, run)
    decreases |run|
  {
    hide InStep, Send, Receive, Full, Repeats, Link.Valid, Link.EncodeFor, Link.DecodeFor;
    assert Remembered(link, lastSent) by { InStepRemembers(link, lastSent, lastReceived); }
    if run != [] {
      assert Transmissible(link, run[0]);
      OneTransfer(link, lastSent, lastReceived, run[0]);
      var sent := Send(link, lastSent, run[0].key, run[0].value);
      var received := Receive(link, lastReceived, sent.0.value);
      TransparentIff(link, sent.1, received.1, run[1..]);
      HeadAndTail(received.0, Transfer(link, sent.1, received.1, run[1..]), Ok(Full(link, run[0])), AllFull(link, run[1..]));
    }
  }

  lemma InStepRemembers(link: Link, lastSent: map<nat, SonicValue>, lastReceived: map<nat, SonicValue>)
    requires InStep(link, lastSent, lastReceived)
    ensures Remembered(link, lastSent)
  {
  }

  lemma HeadAndTail<T>(a: T, as_: seq<T>, b: T, bs: seq<T>)
    ensures [a] + as_ == [b] + bs <==> a == b && as_ == bs
  {
    assert ([a] + as_)[0] == a && ([a] + as_)[1..] == as_;
    assert ([b] + bs)[0] == b && ([b] + bs)[1..] == bs;
  }

  /** Values that compare equal encode alike, a condition on the numbers of the platform that the two zeros do not meet in JSON. */
  ghost predicate EqualsEncodeAlike(link: Link) {
    forall key, a, b :: link.Sends(key) && link.same(a, b) ==> link.EncodeFor(key, a) == link.EncodeFor(key, b)
  }

  /** Then every run from a new connection is transparent. */
  lemma TransparentFromStart(link: Link, run: seq<Sending>)
    requires link.Valid() && AllTransmissible(link, run) && EqualsEncodeAlike(link)
    ensures Transfer(link, map[], map[], run) == AllFull(link, run)
  {
    hide Transmissible, Full, Link.Valid, Transfer, AllFull;
    EqualsAgree(link, map[], run);
    TransparentIff(link, map[], map[], run);
  }

  lemma {:induction false} EqualsAgree(link: Link, lastSent: map<nat, SonicValue>, run: seq<Sending>)
    requires AllTransmissible(link, run) && Remembered(link, lastSent) && EqualsEncodeAlike(link)
    ensures RepetitionsAgree(link, lastSent, run)
    decreases |run|
  {
    hide Encode, Decode;
    if run != [] {
      assert Transmissible(link, run[0]);
      var after := Send(link, lastSent, run[0].key, run[0].value).1;
      assert forall key :: key in after ==> Transmissible(link, Sending(key, after[key]));
      EqualsAgree(link, after, run[1..]);
    }
  }

  /** Two values in a row that compare equal, on a packet that rereferences. */
  lemma PairIsTransparentIff(link: Link, key: nat, a: SonicValue, b: SonicValue)
    requires link.Valid() && Transmissible(link, Sending(key, a)) && Transmissible(link, Sending(key, b))
    requires link.packets[key].rereference && link.same(a, b)
    ensures AllTransmissible(link, [Sending(key, a), Sending(key, b)])
    ensures Transfer(link, map[], map[], [Sending(key, a), Sending(key, b)]) == AllFull(link, [Sending(key, a), Sending(key, b)])
       <==> Full(link, Sending(key, a)) == Full(link, Sending(key, b))
  {
    hide Encode, Decode, Link.Valid, Transfer, AllFull;
    var run := [Sending(key, a), Sending(key, b)];
    TransparentIff(link, map[], map[], run);
    assert run[1..] == [Sending(key, b)] && run[1..][1..] == [];
    var after := Send(link, map[], key, a).1;
    assert after == map[][key := a];
    assert RepetitionsAgree(link, Send(link, after, key, b).1, []);
  }

  // ---- which values go out as repetitions

  /** What the sender remembers after a run, and the frames of the run. */
  function Sent(link: Link, run: seq<Sending>): (map<nat, SonicValue>, seq<Result<Frame>>)
    requires forall i :: 0 <= i < |run| ==> link.Sends(run[i].key)
    decreases |run|
  {
    if run == [] then (map[], [])
    else
      var (cache, frames) := Sent(link, run[..|run| - 1]);
      var last := run[|run| - 1];
      var (frame, next) := Send(link, cache, last.key, last.value);
      (next, frames + [frame])
  }

  lemma {:induction false} FrameForEach(link: Link, run: seq<Sending>)
    requires forall i :: 0 <= i < |run| ==> link.Sends(run[i].key)
    ensures |Sent(link, run).1| == |run|
    decreases |run|
  {
    if run != [] {
      FrameForEach(link, run[..|run| - 1]);
    }
  }

  /** `j` is the last sending before `n` on this key that did not go out as an empty frame. */
  ghost predicate LastInFull(run: seq<Sending>, frames: seq<Result<Frame>>, key: nat, n: nat, j: nat) {
    && j < n <= |run| && n <= |frames| && run[j].key == key && frames[j] != Ok(Frame(key, []))
    && forall k :: j < k < n && run[k].key == key ==> frames[k] == Ok(Frame(key, []))
  }

  /** The sender remembers for a key the last value that went out in full. */
  ghost predicate RemembersFull(link: Link, run: seq<Sending>) {
    (forall i :: 0 <= i < |run| ==> link.Sends(run[i].key)) &&
    var (cache, frames) := Sent(link, run);
    forall key :: key in link.packets && link.packets[key].rereference ==>
      if key in cache then exists j: nat :: LastInFull(run, frames, key, |run|, j) && cache[key] == run[j].value
      else forall j :: 0 <= j < |run| ==> run[j].key != key
  }

  /** The packets of the run are single ones that may be sent this way. */
  ghost predicate SingleRun(link: Link, run: seq<Sending>) {
    forall i :: 0 <= i < |run| ==> link.Sends(run[i].key) && link.packets[run[i].key].definition.dataBatching == 0
  }

  lemma FullIsNotEmpty(link: Link, key: nat, value: SonicValue)
    requires link.Valid() && link.Sends(key) && link.packets[key].rereference
    ensures link.EncodeFor(key, value) != Ok([])
  {
    hide Encode, Platform.Valid;
    if link.EncodeFor(key, value).Ok? {
      EncodingIsNotEmpty(link.platform, link.js, link.packets[key], value);
    }
  }

  lemma RemembersNext(link: Link, run: seq<Sending>, last: Sending)
    requires link.Valid() && SingleRun(link, run + [last]) && RemembersFull(link, run)
    ensures RemembersFull(link, run + [last])
  {
    hide Link.EncodeFor, Link.Valid;
    var longer := run + [last];
    assert longer[..|longer| - 1] == run && longer[|longer| - 1] == last;
    FrameForEach(link, run);
    FrameForEach(link, longer);
    var (cache, frames) := Sent(link, run);
    var (next, all) := Sent(link, longer);
    var frame := Send(link, cache, last.key, last.value).0;
    assert all == frames + [frame];
    if link.packets[last.key].rereference {
      FullIsNotEmpty(link, last.key, last.value);
    }
    forall key | key in link.packets && link.packets[key].rereference
      ensures if key in next then exists j: nat :: LastInFull(longer, all, key, |longer|, j) && next[key] == longer[j].value
              else forall j :: 0 <= j < |longer| ==> longer[j].key != key
    {
      if key == last.key && !Repeats(link, cache, last.key, last.value) {
        assert LastInFull(longer, all, key, |longer|, |run|);
      } else if key in cache {
        var j: nat :| LastInFull(run, frames, key, |run|, j) && cache[key] == run[j].value;
        assert LastInFull(longer, all, key, |longer|, j);
      }
    }
  }

  lemma {:induction false} RunRemembersFull(link: Link, run: seq<Sending>)
    requires link.Valid() && SingleRun(link, run)
    ensures RemembersFull(link, run)
    decreases |run|
  {
    hide Link.Valid, Send;
    if run != [] {
      var earlier, last := run[..|run| - 1], run[|run| - 1];
      assert run == earlier + [last];
      RunRemembersFull(link, earlier);
      RemembersNext(link, earlier, last);
    }
  }

  /**
   * From a new connection on, over every run: a value goes out as an empty frame if and only if its packet rereferences
   * and it compares equal to the last value of the packet that went out in full; any other value goes out in full.
   */
  lemma RepeatsIff(link: Link, run: seq<Sending>, s: Sending)
    requires link.Valid() && SingleRun(link, run) && SingleRun(link, [s])
    ensures var frames := Sent(link, run).1;
            link.Sends(s.key) &&
            var frame := Send(link, Sent(link, run).0, s.key, s.value).0;
            if link.packets[s.key].rereference && exists j: nat :: LastInFull(run, frames, s.key, |run|, j) && link.same(run[j].value, s.value)
            then frame == Ok(Frame(s.key, []))
            else frame == match link.EncodeFor(s.key, s.value) case Ok(payload) => Ok(Frame(s.key, payload)) case Err(e) => Err(e)
  {
    hide Link.EncodeFor, Link.Valid;
    assert [s][0] == s;
    RunRemembersFull(link, run);
    var (cache, frames) := Sent(link, run);
    if link.packets[s.key].rereference {
      if s.key in cache {
        var j: nat :| LastInFull(run, frames, s.key, |run|, j) && cache[s.key] == run[j].value;
        assert forall k: nat :: LastInFull(run, frames, s.key, |run|, k) ==> k == j;
      }
    }
  }

  // ---- what an empty frame means to the receiver

  /** What the receiver remembers after a run of frames, and what it makes of each. */
  ghost function Heard(link: Link, frames: seq<Frame>): (map<nat, SonicValue>, seq<Result<SonicValue>>)
    decreases |frames|
  {
    if frames == [] then (map[], [])
    else
      var (cache, values) := Heard(link, frames[..|frames| - 1]);
      var (value, next) := Receive(link, cache, frames[|frames| - 1]);
      (next, values + [value])
  }

  /** `j` is the last frame before `n` on this key that was decoded in full, with success. */
  ghost predicate LastDecoded(link: Link, frames: seq<Frame>, key: nat, n: nat, j: nat)
    requires link.Sends(key)
  {
    && j < n <= |frames| && Decodes(link, frames[j], key)
    && forall k :: j < k < n ==> !Decodes(link, frames[k], key)
  }

  /** A frame of this key that is not empty and decodes. */
  ghost predicate Decodes(link: Link, frame: Frame, key: nat)
    requires link.Sends(key)
  {
    frame.key == key && frame.payload != [] && link.DecodeFor(key, frame.payload).Ok?
  }

  ghost predicate RemembersDecoded(link: Link, frames: seq<Frame>) {
    var cache := Heard(link, frames).0;
    forall key :: link.Sends(key) && link.packets[key].rereference ==>
      if key in cache then exists j: nat :: LastDecoded(link, frames, key, |frames|, j) && link.DecodeFor(key, frames[j].payload) == Ok(cache[key])
      else forall j :: 0 <= j < |frames| ==> !Decodes(link, frames[j], key)
  }

  /** A frame changes what is remembered for its own key only, and only if it is decoded. */
  lemma ReceiveRemembers(link: Link, cache: map<nat, SonicValue>, last: Frame, key: nat)
    requires link.Sends(key) && link.packets[key].rereference
    ensures var next := Receive(link, cache, last).1;
            if Decodes(link, last, key) then key in next && link.DecodeFor(key, last.payload) == Ok(next[key])
            else (key in next <==> key in cache) && (key in cache ==> next[key] == cache[key])
  {
    hide Link.DecodeFor;
  }

  lemma RemembersOneMore(link: Link, frames: seq<Frame>, last: Frame)
    requires RemembersDecoded(link, frames)
    ensures RemembersDecoded(link, frames + [last])
  {
    hide Link.DecodeFor, Receive, Decodes;
    var longer := frames + [last];
    assert longer[..|longer| - 1] == frames && longer[|longer| - 1] == last;
    var cache, next := Heard(link, frames).0, Heard(link, longer).0;
    assert next == Receive(link, cache, last).1;
    forall key | link.Sends(key) && link.packets[key].rereference
      ensures if key in next then exists j: nat :: LastDecoded(link, longer, key, |longer|, j) && link.DecodeFor(key, longer[j].payload) == Ok(next[key])
              else forall j :: 0 <= j < |longer| ==> !Decodes(link, longer[j], key)
    {
      ReceiveRemembers(link, cache, last, key);
      if Decodes(link, last, key) {
        assert LastDecoded(link, longer, key, |longer|, |frames|);
      } else if key in cache {
        var j: nat :| LastDecoded(link, frames, key, |frames|, j) && link.DecodeFor(key, frames[j].payload) == Ok(cache[key]);
        assert LastDecoded(link, longer, key, |longer|, j);
      }
    }
  }

  lemma {:induction false} RunRemembersDecoded(link: Link, frames: seq<Frame>)
    ensures RemembersDecoded(link, frames)
    decreases |frames|
  {
    hide Receive;
    if frames != [] {
      assert frames == frames[..|frames| - 1] + [frames[|frames| - 1]];
      RunRemembersDecoded(link, frames[..|frames| - 1]);
      RemembersOneMore(link, frames[..|frames| - 1], frames[|frames| - 1]);
    }
  }

  /**
   * From a new connection on, after any frames: an empty frame of a packet that rereferences is the value of the last
   * frame of the packet that was decoded, or an error if there is none; any other frame is decoded itself.
   */
  lemma RepetitionIs(link: Link, frames: seq<Frame>, frame: Frame)
    ensures var value := Receive(link, Heard(link, frames).0, frame).0;
            if !link.Sends(frame.key) then value == Err(InvalidData)
            else if !link.packets[frame.key].rereference || frame.payload != [] then value == link.DecodeFor(frame.key, frame.payload)
            else if forall j :: 0 <= j < |frames| ==> !Decodes(link, frames[j], frame.key) then value == Err(InvalidData)
            else exists j: nat :: LastDecoded(link, frames, frame.key, |frames|, j) && value == link.DecodeFor(frame.key, frames[j].payload)
  {
    hide Link.DecodeFor;
    RunRemembersDecoded(link, frames);
  }

  // ---- which values are transmissible

  /** What arrives for a value: its normal form, and for JSON that of its document. */
  ghost function Arriving(link: Link, s: Sending): SonicValue
    requires link.Sends(s.key) && ShapesMatch(link.packets[s.key].definition)
    requires Prepared(link.js, link.packets[s.key].definition.packetType.kind, s.value).Ok?
  {
    var definition := link.packets[s.key].definition;
    var kind := definition.packetType.kind;
    var normal := NormalPacket(link.platform, definition, Prepared(link.js, kind, s.value).value);
    if PassesThrough(kind) then normal
    else if !kind.Reserved16? then Array(Items(normal))
    else Array(Items(FromJson(Json.Normal(link.js.coding, ToJson(link.js, Array(Items(s.value))).value))))
  }

  /** Values within the limits of the schema are transmissible if there is room for the booleans announced, and what arrives is their normal form. */
  lemma SendableIsTransmissible(link: Link, s: Sending)
    requires link.Valid() && link.Sends(s.key) && link.packets[s.key].definition.dataBatching == 0 && link.EncodeFor(s.key, s.value).Ok?
    requires var definition := link.packets[s.key].definition;
             var prepared := Prepared(link.js, definition.packetType.kind, s.value);
             && prepared.Ok? && Sendable(link.platform, definition, prepared.value) && SentPacketAccepted(definition, prepared.value)
    ensures Transmissible(link, s) <==> RoomForPacket(link.packets[s.key].definition)
    ensures Transmissible(link, s) ==> Full(link, s) == Arriving(link, s)
  {
    hide Sendable, SentPacketAccepted, ValidatePacket, DecodePacket, EncodePacket, LogicalCount, Platform.Valid, Json.Encode,
      Json.Decode, ToJson, FromJson, Json.Normal, Json.Coding.Valid;
    var definition := link.packets[s.key].definition;
    var kind := definition.packetType.kind;
    var prepared := Prepared(link.js, kind, s.value).value;
    RoundTrip(link.platform, definition, prepared);
    if kind.Reserved16? {
      var document := ToJson(link.js, Array(Items(s.value))).value;
      ToJsonIsUnique(link.js, Array(Items(s.value)));
      assert 8 * |prepared.bytes| < U64_LIMIT by { JsonPayload(link.platform, definition, prepared); }
      Json.RoundTrip(link.js.coding, document);
    }
  }

  lemma JsonPayload(p: Platform, definition: PacketDef, prepared: SonicValue)
    requires definition.packetType == SingleType(Reserved16) && prepared.Bytes? && Sendable(p, definition, prepared)
    ensures 8 * |prepared.bytes| < U64_LIMIT
  {
  }

  // ---- the sign of zero

  const ZERO: Float64 := 0
  const NEGATIVE_ZERO: Float64 := 0x8000_0000_0000_0000

  /** A JSON packet of one value that rereferences. */
  const JSON_PACKET: Packet := Packet(PacketDef(SingleType(Reserved16), SingleLimit(1), SingleLimit(1), 0, 10, false, []), true)

  /** What the platform does with the two zeros: they are numbers, both survive single precision, and they compare equal. */
  ghost predicate SignedZeros(link: Link) {
    && link.js.finite(ZERO) && link.js.finite(NEGATIVE_ZERO)
    && Json.SingleFloats(link.js.coding, Json.Float(ZERO)) && Json.SingleFloats(link.js.coding, Json.Float(NEGATIVE_ZERO))
    && link.same(F64(ZERO), F64(NEGATIVE_ZERO))
  }

  lemma JsonNumberArrives(link: Link, key: nat, d: Float64)
    requires link.Valid() && key in link.packets && link.packets[key] == JSON_PACKET
    requires link.js.finite(d) && Json.SingleFloats(link.js.coding, Json.Float(d))
    ensures Transmissible(link, Sending(key, F64(d))) && Full(link, Sending(key, F64(d))) == Array([F64(d)])
  {
    hide Platform.Valid, Json.Coding.Valid, Json.Encode, Json.Decode, Json.SingleFloats, Json.Normal, EncodePacket, LogicalCount,
      DecodePacket, ValidatePacket, Prepared, ToJson, FromJson, Sendable, SentPacketAccepted, Allowed;
    NumberPrepared(link.js, d);
    JsonIsSendable(link.platform, Prepared(link.js, Reserved16, F64(d)).value.bytes);
    SendableIsTransmissible(link, Sending(key, F64(d)));
  }

  lemma NumberPrepared(js: JsonSide, d: Float64)
    requires js.coding.Valid() && js.finite(d) && Json.SingleFloats(js.coding, Json.Float(d))
    ensures var prepared := Prepared(js, Reserved16, F64(d));
            prepared.Ok? && prepared.value.Bytes? && |prepared.value.bytes| < 100
    ensures var document := ToJson(js, Array(Items(F64(d))));
            document.Ok? && Array(Items(FromJson(Json.Normal(js.coding, document.value)))) == Array([F64(d)])
  {
    hide Json.Encode, Json.Normal, Json.SingleFloats, Json.Coding.Valid;
    var value, document := F64(d), Json.List([Json.Float(d)]);
    assert Items(value) == [value] && [value][1..] == [] && ItemsToJson(js, []) == Ok([]);
    assert [Json.Float(d)] + [] == [Json.Float(d)];
    assert ItemsToJson(js, [value]) == Prepend([Json.Float(d)], Ok([]));
    assert ToJson(js, Array([value])) == Ok(document);
    NumberDocument(js.coding, d);
    assert [Json.Float(d)][1..] == [] && ItemsFromJson([]) == [] && [value] + [] == [value];
    assert ItemsFromJson([Json.Float(d)]) == [value];
    assert FromJson(document) == Array([value]);
  }

  /** The document `[d]`. */
  lemma NumberDocument(c: Json.Coding, d: Float64)
    requires c.Valid() && Json.SingleFloats(c, Json.Float(d))
    ensures var document := Json.List([Json.Float(d)]);
            Json.Encode(c, document).Ok? && |Json.Encode(c, document).value| < 100 && Json.Normal(c, document) == document
  {
    hide Varint.Encode;
    var document := Json.List([Json.Float(d)]);
    var number := Json.OfType(Json.FLOAT, c.bits32(c.narrow(d)));
    assert [Json.Float(d)][1..] == [] && Json.EncodeItems(c, [], 1) == Ok(Json.NOTHING);
    assert Json.EncodeItems(c, [Json.Float(d)], 1) == Ok(number.Then(Json.NOTHING));
    var s := Json.OfType(Json.ARRAY, Varint.Encode(1)).Then(number.Then(Json.NOTHING));
    assert Json.EncodeValue(c, document, 0) == Ok(s);
    assert |s.payload| == |Varint.Encode(1)| + 4 && |s.types| == 2 && |s.bools| == 0;
    Varint.EncodeReserve(0);
    Varint.EncodeReserve(1);
    assert |Json.PackTypes(s.types)| == 1 && |Bits.Pack(s.bools)| == 0;
    Json.NormalIsIdentity(c, Json.Float(d));
    assert [Json.Float(d)] + [] == [Json.Float(d)];
    assert Json.NormalItems(c, []) == [];
    assert Json.NormalItems(c, [Json.Float(d)]) == [Json.Float(d)];
  }

  lemma JsonIsSendable(p: Platform, bytes: seq<byte>)
    requires p.Valid() && |bytes| < 100
    ensures Sendable(p, JSON_PACKET.definition, Bytes(bytes)) && SentPacketAccepted(JSON_PACKET.definition, Bytes(bytes))
    ensures EncodePacket(p, JSON_PACKET.definition, Bytes(bytes)).Ok? && LogicalCount(Reserved16, Bytes(bytes)) == 1
  {
    hide Platform.Valid;
    assert CodecRoundTrip.TextLength([Bytes(bytes)]) == 0 by { assert [Bytes(bytes)][1..] == []; }
  }

  /** Sending 0 and then -0 as JSON: the second goes out as a repetition of the first, though it would decode as -0. */
  lemma NegativeZeroIsLost(link: Link, key: nat)
    requires link.Valid() && key in link.packets && link.packets[key] == JSON_PACKET && SignedZeros(link)
    ensures var run := [Sending(key, F64(ZERO)), Sending(key, F64(NEGATIVE_ZERO))];
            && AllTransmissible(link, run)
            && Full(link, run[1]) == Array([F64(NEGATIVE_ZERO)])
            && Transfer(link, map[], map[], run) == [Ok(Array([F64(ZERO)])), Ok(Array([F64(ZERO)]))]
  {
    hide Encode, Decode, Platform.Valid, Json.Coding.Valid, Json.SingleFloats, Allowed;
    JsonNumberArrives(link, key, ZERO);
    JsonNumberArrives(link, key, NEGATIVE_ZERO);
    var first, second := Sending(key, F64(ZERO)), Sending(key, F64(NEGATIVE_ZERO));
    OneTransfer(link, map[], map[], first);
    var sent := Send(link, map[], key, F64(ZERO));
    var received := Receive(link, map[], sent.0.value);
    assert sent.1 == map[key := F64(ZERO)];
    OneTransfer(link, sent.1, received.1, second);
    TwoTransferred(link, first, second);
  }

  lemma TwoTransferred(link: Link, first: Sending, second: Sending)
    requires AllTransmissible(link, [first, second]) && Transmissible(link, first) && Transmissible(link, second)
    requires Send(link, map[], first.key, first.value).0.Ok?
    requires Send(link, Send(link, map[], first.key, first.value).1, second.key, second.value).0.Ok?
    ensures var sent := Send(link, map[], first.key, first.value);
            var received := Receive(link, map[], sent.0.value);
            Transfer(link, map[], map[], [first, second])
            == [received.0, Receive(link, received.1, Send(link, sent.1, second.key, second.value).0.value).0]
  {
    hide Encode, Decode, Send, Receive;
    var run := [first, second];
    assert run[1..] == [second] && run[1..][1..] == [];
    var sent := Send(link, map[], first.key, first.value);
    var received := Receive(link, map[], sent.0.value);
    var last := Send(link, sent.1, second.key, second.value);
    assert AllTransmissible(link, run[1..]);
    assert Transfer(link, last.1, Receive(link, received.1, last.0.value).1, []) == [];
  }

  // ---- the object

  /** One side of a connection: what it sent and received last, per packet. */
  class Connection {
    const link: Link
    var lastSent: map<nat, SonicValue>
    var lastReceived: map<nat, SonicValue>

    constructor (link: Link)
      ensures this.link == link && lastSent == map[] && lastReceived == map[]
    {
      this.link, lastSent, lastReceived := link, map[], map[];
    }

    method SendValue(key: nat, value: SonicValue) returns (r: Result<Frame>)
      requires link.Sends(key)
      modifies this`lastSent
      ensures (r, lastSent) == Send(link, old(lastSent), key, value)
    {
      hide Encode;
      var packet := link.packets[key];
      if packet.definition.dataBatching != 0 {
        return Err(InvalidData);
      }
      var payload: seq<byte> := [];
      if packet.rereference {
        if !(key in lastSent && link.same(lastSent[key], value)) {
          lastSent := lastSent[key := value];
          payload :- link.EncodeFor(key, value);
        }
      } else {
        payload :- link.EncodeFor(key, value);
      }
      return Ok(Frame(key, payload));
    }

    /** For packets that are not batched: an empty payload repeats, anything else is decoded and remembered. */
    method ReceiveFrame(frame: Frame) returns (r: Result<SonicValue>)
      requires link.platform.Valid()
      modifies this`lastReceived
      ensures (r, lastReceived) == Receive(link, old(lastReceived), frame)
    {
      if !link.Sends(frame.key) {
        return Err(InvalidData);
      }
      var packet := link.packets[frame.key];
      if packet.rereference && |frame.payload| == 0 {
        if frame.key !in lastReceived {
          return Err(InvalidData);
        }
        return Ok(lastReceived[frame.key]);
      }
      var value :- DecodeLoop(link.platform, link.js, packet.definition, frame.payload);
      if packet.rereference {
        lastReceived := lastReceived[frame.key := value];
      }
      return Ok(value);
    }
  }

  /** `Packet::decode`: validation and decoding walk the bytes one after the other. */
  method DecodeLoop(p: Platform, js: JsonSide, packet: PacketDef, bytes: seq<byte>) returns (r: Result<SonicValue>)
    requires p.Valid() && packet.packetType.SingleType?
    ensures r == Decode(p, js, packet, bytes)
  {
    hide ValidatePacket, DecodePacket, Platform.Valid, Json.Decode, FromJson;
    var valid :- CodecLoops.ValidatePacketLoop(p, packet, bytes);
    var value :- CodecLoops.DecodePacketLoop(p, packet, bytes);
    var kind := packet.packetType.kind;
    if PassesThrough(kind) {
      return Ok(value);
    }
    if !kind.Reserved16? {
      return Ok(Array(Items(value)));
    }
    if !value.Bytes? {
      return Err(InvalidData);
    }
    var document :- JsonLoops.DecodeLoop(js.coding, value.bytes);
    return Ok(Array(Items(FromJson(document))));
  }
}
