/** Which values a packet sends, and what the receiver makes of them: `Packet::encode` and `Packet::decode` said of values alone. */
module SendMeaning {
  import opened Primitives
  import opened Schema
  import opened Codec
  import opened CodecMeaning
  import opened PacketRoundTrip
  import opened JsonMeaning
  import opened JsonValues
  import opened Rereference
  import opened CodecRoundTrip
  import Hex
  import Json

  /** How many values the limits of a packet count: a document is one, whatever it holds. */
  function CountedValues(kind: PacketType, value: SonicValue, items: seq<SonicValue>): nat {
    match kind
    case NoneType => 0
    case Raw => if value.Bytes? then |value.bytes| else 1
    case Hex => if value.String? then |value.s| / 2 else 1
    case Reserved16 => 1
    case _ => |items|
  }

  predicate InLimits(packet: PacketDef, count: nat) {
    packet.dataMin.SingleLimit? && packet.dataMax.SingleLimit? ==> packet.dataMin.limit <= count <= packet.dataMax.limit
  }

  /** A document of values that JSON has, with 32-bit integers, nested no deeper than 500. */
  ghost predicate HasDocument(js: JsonSide, v: SonicValue) {
    !NoJson(js, v) && exists document :: Represents(js, v, document) && Json.Height(document) <= 501 && Json.SmallIntegers(document)
  }

  /** What a packet takes. */
  ghost predicate TakesValue(p: Platform, js: JsonSide, packet: PacketDef, value: SonicValue, items: seq<SonicValue>)
    requires packet.packetType.SingleType?
  {
    if packet.packetType.kind.Reserved16? then HasDocument(js, Array(items))
    else Encodable(p, packet.packetType.kind, value, items, Get(packet.enumData, 0))
  }

  lemma DocumentEncodesIff(js: JsonSide, v: SonicValue)
    ensures (ToJson(js, v).Ok? && Json.Encode(js.coding, ToJson(js, v).value).Ok?) <==> HasDocument(js, v)
  {
    hide ToJson, NoJson, Represents, Json.EncodeValue, Json.Height, Json.SmallIntegers;
    ToJsonFailsIff(js, v);
    if ToJson(js, v).Ok? {
      var document := ToJson(js, v).value;
      ToJsonRepresents(js, v);
      Json.EncodableValues(js.coding, document, 0);
      forall other | Represents(js, v, other) ensures other == document {
        RepresentsIsUnique(js, v, other, document);
      }
    }
  }

  /** A list stands for a single value, except for kinds that are no lists. */
  lemma ListIsTaken(p: Platform, kind: PacketType, value: SonicValue, items: seq<SonicValue>, enums: Option<EnumPackage>)
    requires SentAs(value, items) && !PassesThrough(kind) && !kind.Reserved16?
    ensures Encodable(p, kind, Array(items), items, enums) <==> Encodable(p, kind, value, items, enums)
  {
  }

  lemma {:induction false} HexIsNarrow(text: string)
    requires IsHexText(text)
    ensures Hex.Utf8Length(text) == |text|
  {
    hide Hex.Decode;
    HexIsText(text);
    assert Hex.DecodePairs(text).Ok? by { PairsAreTexts(text); }
    Hex.AcceptedIsAscii(text);
  }

  lemma CountIsCounted(p: Platform, js: JsonSide, packet: PacketDef, value: SonicValue, items: seq<SonicValue>)
    requires packet.packetType.SingleType? && SentAs(value, items) && TakesValue(p, js, packet, value, items)
    ensures Prepared(js, packet.packetType.kind, value).Ok?
    ensures LogicalCount(packet.packetType.kind, Prepared(js, packet.packetType.kind, value).value)
         == CountedValues(packet.packetType.kind, value, items)
  {
    hide ToJson, Json.Encode, HasDocument, Hex.Utf8Length;
    if packet.packetType.kind.Reserved16? {
      DocumentEncodesIff(js, Array(items));
    } else if packet.packetType.kind.Hex? {
      HexIsNarrow(value.s);
    }
  }

  /** A packet sends a value if and only if its kind takes it and the number of values keeps to its limits. */
  lemma SendsIff(p: Platform, js: JsonSide, packet: PacketDef, value: SonicValue, items: seq<SonicValue>)
    requires packet.packetType.SingleType? && SentAs(value, items)
    ensures Encode(p, js, packet, value).Ok? <==>
            TakesValue(p, js, packet, value, items) && InLimits(packet, CountedValues(packet.packetType.kind, value, items))
  {
    hide ToJson, Json.Encode, HasDocument, EncodeType, Encodable, LogicalCount, CountedValues;
    var kind := packet.packetType.kind;
    assert Items(value) == items;
    if TakesValue(p, js, packet, value, items) {
      CountIsCounted(p, js, packet, value, items);
    }
    if kind.Reserved16? {
      DocumentEncodesIff(js, Array(items));
      assert forall bytes :: EncodeType(p, kind, Bytes(bytes), Get(packet.enumData, 0)) == Ok(bytes) by { BytesEncode(p, Get(packet.enumData, 0)); }
    } else if PassesThrough(kind) {
      EncodesIff(p, kind, value, items, Get(packet.enumData, 0));
    } else {
      EncodesIff(p, kind, Array(items), items, Get(packet.enumData, 0));
      ListIsTaken(p, kind, value, items, Get(packet.enumData, 0));
    }
  }

  lemma BytesEncode(p: Platform, enums: Option<EnumPackage>)
    ensures forall bytes :: EncodeType(p, Reserved16, Bytes(bytes), enums) == Ok(bytes)
  {
  }

  /** What the receiver makes of a value. */
  ghost predicate Delivers(link: Link, s: Sending, items: seq<SonicValue>, got: SonicValue)
    requires link.Sends(s.key) && link.packets[s.key].definition.dataMax.SingleLimit?
  {
    var definition := link.packets[s.key].definition;
    var kind := definition.packetType.kind;
    if PassesThrough(kind) then Arrives(link.platform, kind, s.value, items, definition.dataMax.limit, Get(definition.enumData, 0), got)
    else if !kind.Reserved16? then
      Arrives(link.platform, kind, Array(items), items, definition.dataMax.limit, Get(definition.enumData, 0), got)
    else exists document :: Represents(link.js, Array(items), document) && ReadBack(link.js.coding, document, got)
  }

  /** What can be told before a send. */
  ghost predicate CanSend(link: Link, s: Sending)
    requires link.Sends(s.key)
  {
    var definition := link.packets[s.key].definition;
    var prepared := Prepared(link.js, definition.packetType.kind, s.value);
    && definition.dataBatching == 0 && link.EncodeFor(s.key, s.value).Ok? && RoomForPacket(definition)
    && prepared.Ok? && Sendable(link.platform, definition, prepared.value) && SentPacketAccepted(definition, prepared.value)
  }

  /** What arrives for a value within the limits is what its kind, or JSON, makes of it. */
  lemma FullIsDelivered(link: Link, s: Sending, items: seq<SonicValue>)
    requires link.Valid() && link.Sends(s.key) && CanSend(link, s) && SentAs(s.value, items)
    ensures Transmissible(link, s) && link.packets[s.key].definition.dataMax.SingleLimit? && Delivers(link, s, items, Full(link, s))
  {
    hide Sendable, SentPacketAccepted, Link.EncodeFor, ToJson, Json.Encode, Json.Normal, FromJson, Normal, Arrives, Represents, ReadBack, Encodable,
      Full, Transmissible, Platform.Valid, Json.Coding.Valid, EncodeType;
    var definition := link.packets[s.key].definition;
    var kind := definition.packetType.kind;
    var prepared := Prepared(link.js, kind, s.value).value;
    assert Items(s.value) == items;
    SendableIsTransmissible(link, s);
    assert ShapesMatch(definition) by { SendableShapes(link.platform, definition, prepared); }
    if kind.Reserved16? {
      JsonDelivers(link, s, items);
    } else {
      SentIsEncoded(link, s);
      EncodesIff(link.platform, kind, prepared, items, Get(definition.enumData, 0));
      NormalArrives(link.platform, kind, prepared, items, definition.dataMax.limit, Get(definition.enumData, 0));
      if !PassesThrough(kind) {
        ListArrives(link.platform, kind, prepared, items, definition.dataMax.limit, Get(definition.enumData, 0));
      }
    }
  }

  lemma SendableShapes(p: Platform, packet: PacketDef, value: SonicValue)
    requires Sendable(p, packet, value)
    ensures ShapesMatch(packet)
  {
  }

  lemma SentIsEncoded(link: Link, s: Sending)
    requires link.Sends(s.key) && link.EncodeFor(s.key, s.value).Ok?
    ensures var definition := link.packets[s.key].definition;
            var prepared := Prepared(link.js, definition.packetType.kind, s.value);
            prepared.Ok? && EncodeType(link.platform, definition.packetType.kind, prepared.value, Get(definition.enumData, 0)).Ok?
  {
    hide EncodeType, Prepared, LogicalCount;
  }

  /** Kinds of lists deliver lists. */
  lemma ListArrives(p: Platform, kind: PacketType, value: SonicValue, items: seq<SonicValue>, cap: u64, enums: Option<EnumPackage>)
    requires !PassesThrough(kind) && !kind.Reserved16? && EncodeType(p, kind, value, enums).Ok?
    ensures Normal(p, kind, value, cap, enums) == Array(Items(Normal(p, kind, value, cap, enums)))
  {
    hide NormalElements, NormalEnums, AsI64Values, PaddedBools, EncodeChunks, EncodeVarints, EncodeEnums;
  }

  lemma JsonDelivers(link: Link, s: Sending, items: seq<SonicValue>)
    requires link.Valid() && link.Sends(s.key) && link.packets[s.key].definition.packetType.kind.Reserved16? && SentAs(s.value, items)
    requires ShapesMatch(link.packets[s.key].definition) && Prepared(link.js, Reserved16, s.value).Ok?
    ensures Delivers(link, s, items, Arriving(link, s))
  {
    hide ToJson, Json.Encode, Json.Normal, FromJson, Represents, ReadBack, Platform.Valid, Json.Coding.Valid;
    assert Items(s.value) == items;
    var document := ToJson(link.js, Array(items)).value;
    ToJsonRepresents(link.js, Array(items));
    NormalIsReadBack(link.js.coding, document);
    assert ReadBack(link.js.coding, document, FromJson(Json.Normal(link.js.coding, document)));
    ListReadBack(link.js, items, document, FromJson(Json.Normal(link.js.coding, document)));
  }

  lemma ListReadBack(js: JsonSide, items: seq<SonicValue>, document: Json.Value, got: SonicValue)
    requires Represents(js, Array(items), document) && ReadBack(js.coding, document, got)
    ensures got == Array(Items(got))
  {
  }

  /** A JSON packet delivers the list that was sent if and only if every value is plain. */
  lemma JsonArrivesIff(link: Link, s: Sending, items: seq<SonicValue>)
    requires link.Valid() && link.Sends(s.key) && CanSend(link, s) && SentAs(s.value, items)
    requires link.packets[s.key].definition.packetType.kind.Reserved16?
    ensures Transmissible(link, s)
    ensures Full(link, s) == Array(items) <==> forall i :: 0 <= i < |items| ==> Plain(link.js, items[i])
  {
    hide CanSend, Full, Transmissible, Represents, ReadBack, Plain, Platform.Valid, Json.Coding.Valid, SentAs;
    FullIsDelivered(link, s, items);
    var document :| Represents(link.js, Array(items), document) && ReadBack(link.js.coding, document, Full(link, s));
    ReadBackIff(link.js, Array(items), document, Full(link, s));
    PlainList(link.js, items);
  }

  lemma PlainList(js: JsonSide, items: seq<SonicValue>)
    ensures Plain(js, Array(items)) <==> forall i :: 0 <= i < |items| ==> Plain(js, items[i])
  {
  }
}
