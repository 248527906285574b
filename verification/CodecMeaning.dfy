/**
 * What each kind of sector means: which values it takes and what arrives for them, said of values and numbers alone,
 * without the functions that encode and decode.
 */
module CodecMeaning {
  import opened Primitives
  import opened Integers
  import opened Schema
  import opened Codec
  import opened CodecAgreement
  import opened CodecRoundTrip
  import opened PacketRoundTrip
  import Hex
  import Huffman
  import Strings
  import Varint

  // ---- the statement

  predicate SignedKind(kind: PacketType) {
    kind.ByteType? || kind.Shorts? || kind.VarInt?
  }

  predicate UnsignedKind(kind: PacketType) {
    kind.UByteType? || kind.UShorts? || kind.UVarInt?
  }

  /** The numeric kinds that carry integers. */
  predicate IntegerKind(kind: PacketType) {
    SignedKind(kind) || UnsignedKind(kind) || kind.Deltas?
  }

  /** The item is this integer, in either of the two forms an application may use. */
  predicate Denotes(item: SonicValue, n: int) {
    (item.I64? && item.i == n) || (item.U64? && item.u == n)
  }

  /** The list that a value is sent as: a value that is no list is a list of one. */
  predicate SentAs(value: SonicValue, items: seq<SonicValue>) {
    if value.Array? then value.items == items else items == [value]
  }

  /** The integers that a kind takes: bytes and shorts look at the low 32 bits only. */
  predicate Takes(kind: PacketType, n: int) {
    match kind
    case ByteType => -0x8000_0000_0000_0000 <= n < 0x8000_0000_0000_0000 && (n + 0x80) % 0x1_0000_0000 < 0x100
    case Shorts => -0x8000_0000_0000_0000 <= n < 0x8000_0000_0000_0000 && (n + 0x8000) % 0x1_0000_0000 < 0x1_0000
    case VarInt | Deltas => -0x8000_0000_0000_0000 <= n < 0x8000_0000_0000_0000
    case UByteType => 0 <= n < 0x100
    case UShorts => 0 <= n < 0x1_0000
    case UVarInt => 0 <= n
    case _ => false
  }

  /** The value is one of the package, and the first such is at `index`. */
  predicate NamedAt(p: Platform, package: EnumPackage, item: SonicValue, index: nat) {
    && index < |package.values| && Names(p, item, package.values[index])
    && forall i :: 0 <= i < index ==> !Names(p, item, package.values[i])
  }

  ghost predicate Named(p: Platform, package: EnumPackage, item: SonicValue) {
    exists index :: NamedAt(p, package, item, index)
  }

  /** Numbers are compared as doubles, everything else for identity. */
  predicate Names(p: Platform, item: SonicValue, wanted: EnumValue) {
    match (item, wanted)
    case (String(s), EnumString(text)) => s == text
    case (I64(i), EnumNumber(d)) => p.floats.sameNumber(d, p.floats.fromInteger(i))
    case (U64(u), EnumNumber(d)) => p.floats.sameNumber(d, p.floats.fromInteger(u))
    case (F32(f), EnumNumber(d)) => p.floats.sameNumber(d, p.floats.widen(f))
    case (F64(x), EnumNumber(d)) => p.floats.sameNumber(d, x)
    case (Bool(b), EnumBool(flag)) => b == flag
    case (Undefined, EnumUndefined) => true
    case (Null, EnumNull) => true
    case _ => false
  }

  predicate IsHexDigit(c: char) {
    '0' <= c <= '9' || 'a' <= c <= 'f' || 'A' <= c <= 'F'
  }

  /** Pairs of digits, the first of which may be a plus sign. */
  predicate IsHexText(text: string) {
    |text| % 2 == 0 && forall i :: 0 <= i < |text| ==> IsHexDigit(text[i]) || (i % 2 == 0 && text[i] == '+')
  }

  /** What a kind takes. */
  ghost predicate Encodable(p: Platform, kind: PacketType, value: SonicValue, items: seq<SonicValue>, enums: Option<EnumPackage>) {
    match kind
    case NoneType => value == Undefined || value == Null || value == Array([])
    case Raw | Reserved16 => value.Bytes?
    case Floats | Doubles => forall k :: 0 <= k < |items| ==> items[k].F32? || items[k].F64?
    case Booleans => forall k :: 0 <= k < |items| ==> items[k].Bool?
    case StringsAscii => forall k :: 0 <= k < |items| ==> items[k].String? && HasCodes(p.table, items[k].s)
    case StringsUtf16 => forall k :: 0 <= k < |items| ==> items[k].String?
    case Hex => value.String? && IsHexText(value.s)
    case Enums => enums.Some? && forall k :: 0 <= k < |items| ==> Named(p, enums.value, items[k])
    case _ => forall k :: 0 <= k < |items| ==> IsTaken(kind, items[k])
  }

  ghost predicate IsTaken(kind: PacketType, item: SonicValue) {
    exists n :: Denotes(item, n) && Takes(kind, n)
  }

  predicate HasCode(table: Huffman.Table, ch: char) {
    exists i :: 0 <= i < |table| && table[i].ch == ch
  }

  predicate HasCodes(table: Huffman.Table, text: string) {
    forall i :: 0 <= i < |text| ==> HasCode(table, text[i])
  }

  /** The last 32 bits agree. */
  predicate SameWord(n: int, m: int) {
    (n - m) % 0x1_0000_0000 == 0
  }

  /** What arrives for one item. */
  ghost predicate ArrivesAs(p: Platform, kind: PacketType, item: SonicValue, enums: Option<EnumPackage>, got: SonicValue) {
    match kind
    case ByteType | Shorts | VarInt => got.I64? && InI32(got.i) && exists n :: Denotes(item, n) && SameWord(n, got.i)
    case UByteType | UShorts | UVarInt => got.U64? && Denotes(item, got.u)
    case Floats => got == F32(p.floats.decode32(p.floats.encode32(if item.F32? then item.f else if item.F64? then p.floats.narrow(item.d) else 0)))
    case Doubles => got == F64(p.floats.decode64(p.floats.encode64(if item.F64? then item.d else if item.F32? then p.floats.widen(item.f) else 0)))
    case StringsAscii | StringsUtf16 => got == item
    case Enums => enums.Some? && exists index :: NamedAt(p, enums.value, item, index) && Restores(got, enums.value.values[index % 256])
    case _ => false
  }

  /** An enum value as the application sees it. */
  predicate Restores(got: SonicValue, original: EnumValue) {
    match original
    case EnumString(text) => got == String(text)
    case EnumNumber(d) => got == F64(d)
    case EnumBool(flag) => got == Bool(flag)
    case EnumUndefined => got == Undefined
    case EnumNull => got == Null
  }

  /** Every number that arrives has the last 32 bits of the one sent, and is a 32-bit step from the one before. */
  ghost predicate DeltasArrive(items: seq<SonicValue>, got: seq<SonicValue>) {
    && |got| == |items|
    && forall k :: 0 <= k < |items| ==> DeltaArrives(items[k], Before(I64(0), got, k), got[k])
  }

  function Before(first: SonicValue, items: seq<SonicValue>, k: nat): SonicValue
    requires k <= |items|
  {
    if k == 0 then first else items[k - 1]
  }

  ghost predicate DeltaArrives(item: SonicValue, before: SonicValue, got: SonicValue) {
    && got.I64? && before.I64? && Small(got.i - before.i)
    && exists n :: Denotes(item, n) && SameWord(n, got.i)
  }

  /** The step to item `k`, wrapped to 64 bits, fits in 32. */
  ghost predicate SmallStep(items: seq<SonicValue>, k: nat)
    requires k < |items|
  {
    exists before, n :: Precedes(items, k, before) && Denotes(items[k], n) && Small(n - before)
  }

  /** The number before item `k`, which is zero for the first. */
  predicate Precedes(items: seq<SonicValue>, k: nat, before: int)
    requires k < |items|
  {
    if k == 0 then before == 0 else Denotes(items[k - 1], before)
  }

  predicate Small(difference: int) {
    (difference + 0x8000_0000) % 0x1_0000_0000_0000_0000 < 0x1_0000_0000
  }

  /** What arrives for a value. */
  ghost predicate Arrives(p: Platform, kind: PacketType, value: SonicValue, items: seq<SonicValue>, cap: nat, enums: Option<EnumPackage>, got: SonicValue) {
    match kind
    case NoneType => got == Undefined
    case Raw | Reserved16 => got == value
    case Hex => value.String? && got.String? && |got.s| == |value.s| && forall i :: 0 <= i < |got.s| ==> got.s[i] == Normalised(value.s[i])
    case Booleans =>
      && got.Array? && |got.items| == cap
      && forall k :: 0 <= k < cap ==> got.items[k] == if k < |items| then items[k] else Bool(false)
    case Deltas => got.Array? && DeltasArrive(items, got.items)
    case _ => got.Array? && |got.items| == |items| && forall k :: 0 <= k < |items| ==> ArrivesAs(p, kind, items[k], enums, got.items[k])
  }

  /** Digits in lower case, and a sign as a zero. */
  function Normalised(c: char): char {
    if c == '+' then '0' else if 'A' <= c <= 'F' then (c as int + 0x20) as char else c
  }

  // ---- one item

  lemma NumberEncodesIff(p: Platform, kind: PacketType, item: SonicValue, previous: i64)
    requires IntegerKind(kind)
    ensures (if Width(kind) > 0 then ToChunk(p, kind, item).Ok? else ToVarint(kind, item, previous).Ok?) <==>
            IsTaken(kind, item)
  {
    match item
    case I64(i) =>
      assert Denotes(item, i) && forall n :: Denotes(item, n) ==> n == i;
      ShortRanges(i);
    case U64(u) =>
      assert Denotes(item, u) && forall n :: Denotes(item, n) ==> n == u;
      ShortRanges(u);
    case _ =>
      assert forall n :: !Denotes(item, n);
  }

  /** One or two bytes of zigzag are the numbers whose low 32 bits lie around zero. */
  lemma ShortRanges(n: int)
    ensures ZigzagEncode(n) < 0x100 <==> (n + 0x80) % 0x1_0000_0000 < 0x100
    ensures ZigzagEncode(n) < 0x1_0000 <==> (n + 0x8000) % 0x1_0000_0000 < 0x1_0000
  {
    var v := AsI32(n);
    var q := (n + 0x8000_0000) / 0x1_0000_0000;
    assert n == v + 0x1_0000_0000 * q;
    if v + 0x80 >= 0 {
      Remainder(n + 0x80, q, v + 0x80);
    } else {
      Remainder(n + 0x80, q - 1, v + 0x80 + 0x1_0000_0000);
    }
    if v + 0x8000 >= 0 {
      if v + 0x8000 < 0x1_0000_0000 {
        Remainder(n + 0x8000, q, v + 0x8000);
      }
    } else {
      Remainder(n + 0x8000, q - 1, v + 0x8000 + 0x1_0000_0000);
    }
  }

  lemma Remainder(n: int, q: int, r: int)
    requires n == 0x1_0000_0000 * q + r && 0 <= r < 0x1_0000_0000
    ensures n % 0x1_0000_0000 == r
  {
  }

  /** The normal form of an integer denotes the same number, or its low 32 bits. */
  lemma NumberArrives(p: Platform, kind: PacketType, item: SonicValue, enums: Option<EnumPackage>, n: int)
    requires (SignedKind(kind) || UnsignedKind(kind)) && Denotes(item, n) && Takes(kind, n)
    ensures ArrivesAs(p, kind, item, enums, NormalElement(p, kind, item))
  {
    WrapsAreCongruent(n);
    if SignedKind(kind) {
      assert IntegerOf(item) == n;
      assert SameWord(n, AsI32(n)) by { CongruentBack(AsI32(n), n); }
    }
  }

  lemma CongruentBack(a: int, b: int)
    requires Congruent(a, b)
    ensures SameWord(b, a) && SameWord(a, b)
  {
    var q := (a - b) / 0x1_0000_0000;
    assert b - a == 0x1_0000_0000 * -q;
  }

  // ---- lists

  lemma {:induction false} ChunksEncodeIff(p: Platform, kind: PacketType, vals: seq<SonicValue>)
    requires Width(kind) > 0
    ensures EncodeChunks(p, kind, vals).Ok? <==> forall k :: 0 <= k < |vals| ==> ToChunk(p, kind, vals[k]).Ok?
  {
    hide ToChunk;
    if vals != [] {
      ChunksEncodeIff(p, kind, vals[1..]);
      assert forall k :: 1 <= k < |vals| ==> vals[k] == vals[1..][k - 1];
      assert forall k :: 0 <= k < |vals[1..]| ==> vals[1..][k] == vals[k + 1];
    }
  }

  lemma {:induction false} VarintsEncodeIff(kind: PacketType, vals: seq<SonicValue>, previous: i64)
    requires IsVarKind(kind)
    ensures EncodeVarints(kind, vals, previous).Ok? <==> forall k :: 0 <= k < |vals| ==> ToVarint(kind, vals[k], 0).Ok?
    decreases |vals|
  {
    hide Varint.Encode;
    if vals != [] {
      assert ToVarint(kind, vals[0], previous).Ok? <==> ToVarint(kind, vals[0], 0).Ok?;
      if ToVarint(kind, vals[0], previous).Ok? {
        VarintsEncodeIff(kind, vals[1..], ToVarint(kind, vals[0], previous).value.1);
      }
      assert forall k :: 1 <= k < |vals| ==> vals[k] == vals[1..][k - 1];
      assert forall k :: 0 <= k < |vals[1..]| ==> vals[1..][k] == vals[k + 1];
    }
  }

  lemma {:induction false} PositionIsFirst(p: Platform, item: SonicValue, wanted: EnumValue, values: seq<EnumValue>)
    requires p.EnumFromSonic(item) == Ok(wanted)
    ensures match p.Position(values, wanted)
            case Some(index) => index < |values| && Names(p, item, values[index]) && forall i :: 0 <= i < index ==> !Names(p, item, values[i])
            case None => forall i :: 0 <= i < |values| ==> !Names(p, item, values[i])
  {
    if values != [] {
      assert p.SameEnumValue(values[0], wanted) <==> Names(p, item, values[0]);
      PositionIsFirst(p, item, wanted, values[1..]);
      assert forall i :: 1 <= i < |values| ==> values[i] == values[1..][i - 1];
    }
  }

  /** Where an item is found, and that it is found if it is one of the package. */
  lemma EnumIsNamed(p: Platform, package: EnumPackage, item: SonicValue)
    ensures Named(p, package, item) <==>
            p.EnumFromSonic(item).Ok? && p.Position(package.values, p.EnumFromSonic(item).value).Some?
    ensures p.EnumFromSonic(item).Ok? && p.Position(package.values, p.EnumFromSonic(item).value).Some? ==>
              NamedAt(p, package, item, p.Position(package.values, p.EnumFromSonic(item).value).value)
  {
    hide Names, Platform.Position;
    if p.EnumFromSonic(item).Ok? {
      var wanted := p.EnumFromSonic(item).value;
      PositionIsFirst(p, item, wanted, package.values);
      if p.Position(package.values, wanted).Some? {
        assert NamedAt(p, package, item, p.Position(package.values, wanted).value);
      }
    } else {
      forall i | 0 <= i < |package.values| ensures !Names(p, item, package.values[i]) {
        UnnamedKind(p, item, package.values[i]);
      }
    }
  }

  lemma UnnamedKind(p: Platform, item: SonicValue, wanted: EnumValue)
    requires p.EnumFromSonic(item).Err?
    ensures !Names(p, item, wanted)
  {
  }

  lemma {:induction false} EnumsEncodeIff(p: Platform, package: EnumPackage, vals: seq<SonicValue>)
    ensures EncodeEnums(p, package, vals).Ok? <==> forall k :: 0 <= k < |vals| ==> Named(p, package, vals[k])
  {
    hide Named, Platform.EnumFromSonic, Platform.Position;
    if vals != [] {
      EnumIsNamed(p, package, vals[0]);
      EnumsEncodeIff(p, package, vals[1..]);
      assert forall k :: 1 <= k < |vals| ==> vals[k] == vals[1..][k - 1];
      assert forall k :: 0 <= k < |vals[1..]| ==> vals[1..][k] == vals[k + 1];
    }
  }

  lemma {:induction false} FoundIff(table: Huffman.Table, ch: char)
    ensures Huffman.FindCharacter(table, ch).Some? <==> HasCode(table, ch)
  {
    if table != [] {
      FoundIff(table[1..], ch);
      if HasCode(table[1..], ch) {
        var i :| 0 <= i < |table[1..]| && table[1..][i].ch == ch;
        assert table[i + 1].ch == ch;
      }
    }
  }

  lemma {:induction false} TextEncodesIff(table: Huffman.Table, text: string)
    ensures Huffman.EncodeBits(table, text).Some? <==> HasCodes(table, text)
  {
    hide HasCode, Huffman.FindCharacter;
    if text != "" {
      FoundIff(table, text[0]);
      TextEncodesIff(table, text[1..]);
      assert forall k :: 1 <= k < |text| ==> text[k] == text[1..][k - 1];
      assert forall k :: 0 <= k < |text[1..]| ==> text[1..][k] == text[k + 1];
    }
  }

  lemma {:induction false} JoinHasCodes(table: Huffman.Table, texts: seq<string>)
    ensures HasCodes(table, Strings.Join(texts)) <==> forall k :: 0 <= k < |texts| ==> HasCodes(table, texts[k])
  {
    hide HasCode;
    if texts != [] {
      JoinHasCodes(table, texts[1..]);
      ConcatHasCodes(table, texts[0], Strings.Join(texts[1..]));
      assert forall k :: 1 <= k < |texts| ==> texts[k] == texts[1..][k - 1];
      assert forall k :: 0 <= k < |texts[1..]| ==> texts[1..][k] == texts[k + 1];
    }
  }

  lemma ConcatHasCodes(table: Huffman.Table, left: string, right: string)
    ensures HasCodes(table, left + right) <==> HasCodes(table, left) && HasCodes(table, right)
  {
    hide HasCode;
    assert forall i :: 0 <= i < |left| ==> (left + right)[i] == left[i];
    assert forall i :: 0 <= i < |right| ==> (left + right)[|left| + i] == right[i];
  }

  lemma PairIsText(high: char, low: char)
    ensures Hex.Pair(high, low).Ok? <==> (IsHexDigit(high) || high == '+') && IsHexDigit(low)
    ensures Hex.Pair(high, low).Ok? ==> Hex.Utf8Width(high) == 1 && Hex.Utf8Width(low) == 1
    ensures Hex.Pair(high, low).Ok? ==>
              var b := Hex.Pair(high, low).value; Hex.Digit(b / 16) == Normalised(high) && Hex.Digit(b % 16) == Normalised(low)
  {
  }

  lemma {:induction false} PairsAreTexts(text: string)
    ensures Hex.DecodePairs(text).Ok? <==> IsHexText(text)
    ensures Hex.DecodePairs(text).Ok? ==>
              var got := Hex.Encode(Hex.DecodePairs(text).value);
              |got| == |text| && forall i :: 0 <= i < |got| ==> got[i] == Normalised(text[i])
  {
    hide Hex.Pair, Hex.Utf8Width, IsHexDigit, Normalised, Hex.Digit;
    if |text| >= 2 {
      PairIsText(text[0], text[1]);
      PairsAreTexts(text[2..]);
      assert forall k :: 2 <= k < |text| ==> text[k] == text[2..][k - 2];
      assert forall k :: 0 <= k < |text[2..]| ==> text[2..][k] == text[k + 2];
      if Hex.DecodePairs(text).Ok? {
        var b, rest := Hex.Pair(text[0], text[1]).value, Hex.DecodePairs(text[2..]).value;
        assert ([b] + rest)[1..] == rest;
      }
    }
  }

  lemma HexIsText(text: string)
    ensures Hex.Decode(text).Ok? <==> IsHexText(text)
    ensures Hex.Decode(text).Ok? ==>
              var got := Hex.Encode(Hex.Decode(text).value);
              |got| == |text| && forall i :: 0 <= i < |got| ==> got[i] == Normalised(text[i])
  {
    hide Hex.DecodePairs, IsHexText, Normalised;
    PairsAreTexts(text);
    Hex.DecodeIsPairs(text);
  }

  // ---- what encodes

  lemma {:induction false} TextsEncodeIff(p: Platform, items: seq<SonicValue>)
    ensures (ToStrings(items).Ok? && Strings.EncodeAscii(p.table, ToStrings(items).value).Ok?) <==>
            forall k :: 0 <= k < |items| ==> items[k].String? && HasCodes(p.table, items[k].s)
  {
    hide HasCodes, Huffman.EncodeBits;
    if ToStrings(items).Ok? {
      var texts := ToStrings(items).value;
      TextEncodesIff(p.table, Strings.Join(texts));
      JoinHasCodes(p.table, texts);
      assert forall k :: 0 <= k < |items| ==> items[k].s == texts[k];
    }
  }

  /** A value encodes if and only if its kind takes it. */
  lemma EncodesIff(p: Platform, kind: PacketType, value: SonicValue, items: seq<SonicValue>, enums: Option<EnumPackage>)
    requires SentAs(value, items)
    ensures EncodeType(p, kind, value, enums).Ok? <==> Encodable(p, kind, value, items, enums)
  {
    hide EncodeChunks, EncodeVarints, EncodeEnums, ToChunk, ToVarint, IsTaken, Named, IsHexText, Hex.Decode, HasCodes, Strings.EncodeAscii,
      Strings.EncodeCodepoints;
    assert Items(value) == items;
    match kind
    case ByteType | UByteType | Shorts | UShorts =>
      ChunksEncodeIff(p, kind, items);
      forall k | 0 <= k < |items| ensures ToChunk(p, kind, items[k]).Ok? <==> IsTaken(kind, items[k]) {
        NumberEncodesIff(p, kind, items[k], 0);
      }
    case Floats | Doubles =>
      ChunksEncodeIff(p, kind, items);
      forall k | 0 <= k < |items| ensures ToChunk(p, kind, items[k]).Ok? <==> items[k].F32? || items[k].F64? {
        FloatEncodesIff(p, kind, items[k]);
      }
    case VarInt | UVarInt | Deltas =>
      VarintsEncodeIff(kind, items, 0);
      forall k | 0 <= k < |items| ensures ToVarint(kind, items[k], 0).Ok? <==> IsTaken(kind, items[k]) {
        NumberEncodesIff(p, kind, items[k], 0);
      }
    case StringsAscii => TextsEncodeIff(p, items);
    case Hex =>
      if value.String? {
        HexIsText(value.s);
      }
    case Enums =>
      if enums.Some? {
        EnumsEncodeIff(p, enums.value, items);
      }
    case _ =>
  }

  lemma FloatEncodesIff(p: Platform, kind: PacketType, item: SonicValue)
    requires kind.Floats? || kind.Doubles?
    ensures ToChunk(p, kind, item).Ok? <==> item.F32? || item.F64?
  {
  }

  // ---- what arrives

  lemma EnumArrives(p: Platform, package: EnumPackage, item: SonicValue)
    requires Named(p, package, item)
    ensures ArrivesAs(p, Enums, item, Some(package), NormalEnum(p, package, item))
  {
    hide NamedAt, Platform.EnumFromSonic, Platform.Position;
    EnumIsNamed(p, package, item);
    var index := p.Position(package.values, p.EnumFromSonic(item).value).value;
    assert NamedAt(p, package, item, index) && Restores(NormalEnum(p, package, item), package.values[index % 256]);
  }

  lemma {:induction false} StepsAreSmall(items: seq<SonicValue>, before: int, k: nat)
    requires k <= |items| && (forall i :: 0 <= i < |items| ==> Integer(items[i]).Ok?)
    requires k < |items| ==> Precedes(items, k, before)
    ensures StepsFitI32(before, IntegersOf(items[k..])) <==> forall i :: k <= i < |items| ==> SmallStep(items, i)
    decreases |items| - k
  {
    hide StepFits, Integer, Denotes;
    if k < |items| {
      var n := IntegerOf(items[k]);
      DenotesItsInteger(items[k]);
      StepIsSmall(items, k, before, n);
      StepsAreSmall(items, n, k + 1);
      assert IntegersOf(items[k..])[1..] == IntegersOf(items[k + 1..]) && IntegersOf(items[k..])[0] == n;
    }
  }

  lemma DenotesItsInteger(item: SonicValue)
    requires Integer(item).Ok?
    ensures forall n :: Denotes(item, n) <==> n == IntegerOf(item)
  {
  }

  lemma StepIsSmall(items: seq<SonicValue>, k: nat, before: int, n: int)
    requires k < |items| && Precedes(items, k, before) && Denotes(items[k], n)
    ensures StepFits(before, n) <==> SmallStep(items, k)
  {
    SmallDifference(n - before);
    assert forall m :: Denotes(items[k], m) ==> m == n;
    assert forall m :: Precedes(items, k, m) ==> m == before;
  }

  lemma SmallDifference(d: int)
    ensures InI32(AsI64(d)) <==> Small(d)
  {
    var v := AsI64(d);
    var q := (d + 0x8000_0000_0000_0000) / 0x1_0000_0000_0000_0000;
    assert d == v + 0x1_0000_0000_0000_0000 * q;
    if v + 0x8000_0000 >= 0 {
      LongRemainder(d + 0x8000_0000, if v + 0x8000_0000 < 0x1_0000_0000_0000_0000 then q else q + 1,
                    if v + 0x8000_0000 < 0x1_0000_0000_0000_0000 then v + 0x8000_0000 else v + 0x8000_0000 - 0x1_0000_0000_0000_0000);
    } else {
      LongRemainder(d + 0x8000_0000, q - 1, v + 0x8000_0000 + 0x1_0000_0000_0000_0000);
    }
  }

  lemma LongRemainder(n: int, q: int, r: int)
    requires n == 0x1_0000_0000_0000_0000 * q + r && 0 <= r < 0x1_0000_0000_0000_0000
    ensures n % 0x1_0000_0000_0000_0000 == r
  {
  }

  /** Sums of 32-bit differences are 32-bit steps apart. */
  lemma {:induction false} SumsStep(previous: int, differences: seq<int>)
    ensures var sums := RunningSums(previous, differences);
            forall k :: 0 <= k < |sums| ==> Small(sums[k] - if k == 0 then previous else sums[k - 1])
    decreases |differences|
  {
    if differences != [] {
      var step := AsI32(differences[0]);
      var here := AsI64(previous + step);
      var sums := RunningSums(previous, differences);
      SumsStep(here, differences[1..]);
      assert AsI64(here - previous) == step by { WrappedStep(previous, step); }
      SmallDifference(here - previous);
      forall k | 1 <= k < |sums| ensures Small(sums[k] - sums[k - 1]) {
        assert sums[1..] == RunningSums(here, differences[1..]);
        assert sums[k] == sums[1..][k - 1] && (k > 1 ==> sums[k - 1] == sums[1..][k - 2]);
      }
    }
  }

  lemma WrappedStep(previous: int, step: int)
    requires InI64(step)
    ensures AsI64(AsI64(previous + step) - previous) == step
  {
    var q := (previous + step + 0x8000_0000_0000_0000) / 0x1_0000_0000_0000_0000;
    assert AsI64(previous + step) == previous + step - 0x1_0000_0000_0000_0000 * q;
    LongRemainder(step - 0x1_0000_0000_0000_0000 * q + 0x8000_0000_0000_0000, -q, step + 0x8000_0000_0000_0000);
  }

  lemma DeltasNormal(items: seq<SonicValue>)
    requires forall i :: 0 <= i < |items| ==> Integer(items[i]).Ok?
    ensures var got := AsI64Values(RunningSums(0, Differences(0, IntegersOf(items))));
            && DeltasArrive(items, got)
            && ((forall k :: 0 <= k < |items| ==> Denotes(items[k], got[k].i)) <==> forall k :: 0 <= k < |items| ==> SmallStep(items, k))
  {
    hide RunningSums, Differences, StepsFitI32, SmallStep, Integer, Small;
    var numbers := IntegersOf(items);
    var sums := RunningSums(0, Differences(0, numbers));
    var got := AsI64Values(sums);
    DeltasCongruent(0, 0, numbers);
    DeltasExact(0, numbers);
    SumsAreWords(0, Differences(0, numbers));
    SumsStep(0, Differences(0, numbers));
    StepsAreSmall(items, 0, 0);
    assert items[0..] == items;
    forall k | 0 <= k < |items|
      ensures DeltaArrives(items[k], Before(I64(0), got, k), got[k])
      ensures Denotes(items[k], got[k].i) <==> sums[k] == numbers[k]
    {
      assert got[k] == I64(sums[k]) && Before(I64(0), got, k) == I64(if k == 0 then 0 else sums[k - 1]);
      DenotesItsInteger(items[k]);
      CongruentBack(sums[k], numbers[k]);
      assert Denotes(items[k], numbers[k]) && SameWord(numbers[k], got[k].i);
    }
    assert (forall k :: 0 <= k < |items| ==> Denotes(items[k], got[k].i)) <==> sums == numbers;
  }

  /** The normal form of a value is what may arrive for it. */
  lemma NormalArrives(p: Platform, kind: PacketType, value: SonicValue, items: seq<SonicValue>, cap: u64, enums: Option<EnumPackage>)
    requires SentAs(value, items) && Encodable(p, kind, value, items, enums)
    ensures Arrives(p, kind, value, items, cap, enums, Normal(p, kind, value, cap, enums))
  {
    hide RunningSums, Differences, NormalElement, NormalEnum, Named, Denotes, Takes, HasCodes, IsHexText, Hex.Decode, DeltasArrive, ArrivesAs, Normalised;
    assert Items(value) == items;
    match kind
    case ByteType | UByteType | Shorts | UShorts | VarInt | UVarInt =>
      forall k | 0 <= k < |items| ensures ArrivesAs(p, kind, items[k], enums, NormalElement(p, kind, items[k])) {
        var n :| Denotes(items[k], n) && Takes(kind, n);
        NumberArrives(p, kind, items[k], enums, n);
      }
    case Floats | Doubles =>
      forall k | 0 <= k < |items| ensures ArrivesAs(p, kind, items[k], enums, NormalElement(p, kind, items[k])) {
        FloatArrives(p, kind, items[k], enums);
      }
    case Deltas =>
      forall k | 0 <= k < |items| ensures Integer(items[k]).Ok? {
        var n :| Denotes(items[k], n) && Takes(kind, n);
        TakenIsInteger(kind, items[k], n);
      }
      DeltasNormal(items);
    case StringsAscii | StringsUtf16 =>
      forall k | 0 <= k < |items| ensures ArrivesAs(p, kind, items[k], enums, items[k]) {
        TextArrives(p, kind, items[k], enums);
      }
    case Enums =>
      forall k | 0 <= k < |items| ensures ArrivesAs(p, kind, items[k], enums, NormalEnum(p, enums.value, items[k])) {
        EnumArrives(p, enums.value, items[k]);
      }
    case Hex => HexIsText(value.s);
    case _ =>
  }

  lemma FloatArrives(p: Platform, kind: PacketType, item: SonicValue, enums: Option<EnumPackage>)
    requires kind.Floats? || kind.Doubles?
    ensures ArrivesAs(p, kind, item, enums, NormalElement(p, kind, item))
  {
  }

  lemma TextArrives(p: Platform, kind: PacketType, item: SonicValue, enums: Option<EnumPackage>)
    requires kind.StringsAscii? || kind.StringsUtf16?
    ensures ArrivesAs(p, kind, item, enums, item)
  {
  }

  lemma TakenIsInteger(kind: PacketType, item: SonicValue, n: int)
    requires kind.Deltas? && Denotes(item, n) && Takes(kind, n)
    ensures Integer(item).Ok?
  {
  }

  // ---- the statement leaves no choice

  lemma SameWordIsSame(a: int, b: int, n: int)
    requires InI32(a) && InI32(b) && SameWord(n, a) && SameWord(n, b)
    ensures a == b
  {
    var q, r := (n - a) / 0x1_0000_0000, (n - b) / 0x1_0000_0000;
    assert a - b == 0x1_0000_0000 * (r - q);
  }

  lemma ItemIsUnique(p: Platform, kind: PacketType, item: SonicValue, enums: Option<EnumPackage>, one: SonicValue, other: SonicValue)
    requires ArrivesAs(p, kind, item, enums, one) && ArrivesAs(p, kind, item, enums, other)
    ensures one == other
  {
    hide SameWord, Names, Restores;
    if SignedKind(kind) {
      var n :| Denotes(item, n) && SameWord(n, one.i);
      var m :| Denotes(item, m) && SameWord(m, other.i);
      SameWordIsSame(one.i, other.i, n);
    } else if kind.Enums? {
      var i :| NamedAt(p, enums.value, item, i) && Restores(one, enums.value.values[i % 256]);
      var j :| NamedAt(p, enums.value, item, j) && Restores(other, enums.value.values[j % 256]);
      FirstIsUnique(p, enums.value, item, i, j);
      RestoresOne(one, other, enums.value.values[i % 256]);
    }
  }

  lemma FirstIsUnique(p: Platform, package: EnumPackage, item: SonicValue, i: nat, j: nat)
    requires NamedAt(p, package, item, i) && NamedAt(p, package, item, j)
    ensures i == j && i < |package.values|
  {
  }

  lemma RestoresOne(one: SonicValue, other: SonicValue, original: EnumValue)
    requires Restores(one, original) && Restores(other, original)
    ensures one == other
  {
  }

  lemma DeltaIsUnique(item: SonicValue, before: SonicValue, one: SonicValue, other: SonicValue)
    requires DeltaArrives(item, before, one) && DeltaArrives(item, before, other)
    ensures one == other
  {
    hide Small, SameWord;
    var n :| Denotes(item, n) && SameWord(n, one.i);
    var m :| Denotes(item, m) && SameWord(m, other.i);
    assert m == n;
    StepIsUnique(before.i, one.i, other.i, n);
  }

  lemma StepIsUnique(before: int, one: int, other: int, n: int)
    requires InI64(one) && InI64(other) && Small(one - before) && Small(other - before) && SameWord(n, one) && SameWord(n, other)
    ensures one == other
  {
    hide Small, AsI64, SameWord, InI32, InI64, Congruent;
    SmallDifference(one - before);
    SmallDifference(other - before);
    WrapsAreCongruent(one - before);
    WrapsAreCongruent(other - before);
    SameStep(AsI64(one - before), AsI64(other - before), n, before, one, other);
    WrappedBack(before, one);
    WrappedBack(before, other);
  }

  lemma SameStep(a: int, b: int, n: int, before: int, one: int, other: int)
    requires InI32(a) && InI32(b) && SameWord(n, one) && SameWord(n, other)
    requires Congruent(a, one - before) && Congruent(b, other - before)
    ensures a == b
  {
    var q, r := (n - one) / 0x1_0000_0000, (n - other) / 0x1_0000_0000;
    var x, y := (a - (one - before)) / 0x1_0000_0000, (b - (other - before)) / 0x1_0000_0000;
    assert a - b == 0x1_0000_0000 * (x - y + r - q);
  }

  lemma WrappedBack(before: int, n: int)
    requires InI64(n)
    ensures AsI64(before + AsI64(n - before)) == n
  {
    var q := (n - before + 0x8000_0000_0000_0000) / 0x1_0000_0000_0000_0000;
    assert AsI64(n - before) == n - before - 0x1_0000_0000_0000_0000 * q;
    LongRemainder(n - 0x1_0000_0000_0000_0000 * q + 0x8000_0000_0000_0000, -q, n + 0x8000_0000_0000_0000);
  }

  lemma {:induction false} DeltasAreUnique(items: seq<SonicValue>, one: seq<SonicValue>, other: seq<SonicValue>, count: nat)
    requires DeltasArrive(items, one) && DeltasArrive(items, other) && count <= |items|
    ensures one[..count] == other[..count]
    decreases count
  {
    hide DeltaArrives;
    if count > 0 {
      var k := count - 1;
      DeltasAreUnique(items, one, other, k);
      assert k > 0 ==> one[k - 1] == one[..k][k - 1] == other[..k][k - 1] == other[k - 1];
      DeltaIsUnique(items[k], Before(I64(0), one, k), one[k], other[k]);
      assert one[..count] == one[..k] + [one[k]] && other[..count] == other[..k] + [other[k]];
    }
  }

  /** At most one value arrives for a value. */
  lemma ArrivesIsUnique(p: Platform, kind: PacketType, value: SonicValue, items: seq<SonicValue>, cap: nat, enums: Option<EnumPackage>,
                        one: SonicValue, other: SonicValue)
    requires Arrives(p, kind, value, items, cap, enums, one) && Arrives(p, kind, value, items, cap, enums, other)
    ensures one == other
  {
    hide ArrivesAs, DeltasArrive, Normalised;
    match kind
    case NoneType | Raw | Reserved16 =>
    case Hex => assert one.s == other.s;
    case Booleans => assert one.items == other.items;
    case Deltas =>
      assert |one.items| == |other.items| == |items| by { DeltasCount(items, one.items); DeltasCount(items, other.items); }
      DeltasAreUnique(items, one.items, other.items, |items|);
      assert one.items[..|items|] == one.items && other.items[..|items|] == other.items;
    case _ =>
      forall k | 0 <= k < |items| ensures one.items[k] == other.items[k] {
        ItemIsUnique(p, kind, items[k], enums, one.items[k], other.items[k]);
      }
      assert one.items == other.items;
  }

  lemma DeltasCount(items: seq<SonicValue>, got: seq<SonicValue>)
    requires DeltasArrive(items, got)
    ensures |got| == |items|
  {
  }

  // ---- through the codec

  /** A sector encodes if and only if its kind takes the value, and decoding it gives what arrives for the value. */
  lemma SectorArrives(p: Platform, kind: PacketType, value: SonicValue, items: seq<SonicValue>, cap: u64, enums: Option<EnumPackage>)
    requires p.Valid() && SentAs(value, items) && Allocatable(value)
    ensures var bytes := EncodeType(p, kind, value, enums);
            && (bytes.Ok? <==> Encodable(p, kind, value, items, enums))
            && (bytes.Ok? && RoomFor(kind, cap) ==>
                  var decoded := DecodeType(p, kind, bytes.value, cap, enums);
                  decoded.Ok? && Arrives(p, kind, value, items, cap, enums, decoded.value))
  {
    hide EncodeType, DecodeType, Encodable, Arrives, Normal, Allocatable;
    EncodesIff(p, kind, value, items, enums);
    if EncodeType(p, kind, value, enums).Ok? {
      SectorRoundTrip(p, kind, value, cap, enums);
      NormalArrives(p, kind, value, items, cap, enums);
    }
  }

  /** The same of a packet of one value, with its framing, its compression and its limits. */
  lemma PacketArrives(p: Platform, packet: PacketDef, value: SonicValue, items: seq<SonicValue>)
    requires p.Valid() && Sendable(p, packet, value) && packet.packetType.SingleType? && RoomForPacket(packet) && SentAs(value, items)
    ensures var decoded := DecodePacket(p, packet, EncodePacket(p, packet, value).value);
            decoded.Ok? &&
            Arrives(p, packet.packetType.kind, value, items, packet.dataMax.limit, Get(packet.enumData, 0), decoded.value)
  {
    hide EncodeType, DecodePacket, Encodable, Arrives, Normal, Allocatable, Compressed, Platform.Valid;
    RoundTrip(p, packet, value);
    EncodesIff(p, packet.packetType.kind, value, items, Get(packet.enumData, 0));
    NormalArrives(p, packet.packetType.kind, value, items, packet.dataMax.limit, Get(packet.enumData, 0));
  }

  /** How many enum fields come before field `i`. */
  function EnumsBefore(kinds: seq<PacketType>, i: nat): nat
    requires i <= |kinds|
  {
    if i == 0 then 0 else EnumsBefore(kinds, i - 1) + if kinds[i - 1].Enums? then 1 else 0
  }

  /** The package of field `i`: enum fields take the packages in their order. */
  function PackageAt(packet: PacketDef, kinds: seq<PacketType>, i: nat): Option<EnumPackage>
    requires i < |kinds|
  {
    var n := EnumsBefore(kinds, i);
    if kinds[i].Enums? && n < |packet.enumData| then Some(packet.enumData[n]) else None
  }

  ghost predicate FieldArrives(p: Platform, packet: PacketDef, kinds: seq<PacketType>, caps: seq<u64>, i: nat, field: SonicValue, got: SonicValue)
    requires i < |kinds| == |caps|
  {
    exists items :: SentAs(field, items) && Arrives(p, kinds[i], field, items, caps[i], PackageAt(packet, kinds, i), got)
  }

  lemma EncodedFieldsRest(p: Platform, packet: PacketDef, kinds: seq<PacketType>, fields: seq<SonicValue>, i: nat)
    requires |kinds| == |fields| && i < |kinds|
    requires EncodeFields(p, kinds[i..], fields[i..], packet.enumData, EnumsBefore(kinds, i)).Ok?
    ensures EncodeType(p, kinds[i], fields[i], PackageAt(packet, kinds, i)).Ok?
    ensures EncodeFields(p, kinds[i + 1..], fields[i + 1..], packet.enumData, EnumsBefore(kinds, i + 1)).Ok?
  {
    hide EncodeType, Varint.Encode;
    assert kinds[i..][1..] == kinds[i + 1..] && fields[i..][1..] == fields[i + 1..];
  }

  lemma {:induction false} NormalFieldsArrive(p: Platform, packet: PacketDef, kinds: seq<PacketType>, fields: seq<SonicValue>, caps: seq<u64>, i: nat)
    requires |kinds| == |fields| == |caps| && i <= |kinds|
    requires EncodeFields(p, kinds[i..], fields[i..], packet.enumData, EnumsBefore(kinds, i)).Ok?
    ensures var got := NormalFields(p, kinds[i..], fields[i..], caps[i..], packet.enumData, EnumsBefore(kinds, i));
            forall k :: i <= k < |kinds| ==> FieldArrives(p, packet, kinds, caps, k, fields[k], got[k - i])
    decreases |kinds| - i
  {
    hide EncodeType, EncodeFields, Normal, FieldArrives, Encodable, Arrives;
    if i < |kinds| {
      EncodedFieldsRest(p, packet, kinds, fields, i);
      NormalFieldsArrive(p, packet, kinds, fields, caps, i + 1);
      var got := NormalFields(p, kinds[i..], fields[i..], caps[i..], packet.enumData, EnumsBefore(kinds, i));
      var rest := NormalFields(p, kinds[i + 1..], fields[i + 1..], caps[i + 1..], packet.enumData, EnumsBefore(kinds, i + 1));
      assert kinds[i..][1..] == kinds[i + 1..] && fields[i..][1..] == fields[i + 1..] && caps[i..][1..] == caps[i + 1..];
      assert got == [Normal(p, kinds[i], fields[i], caps[i], PackageAt(packet, kinds, i))] + rest;
      OneFieldArrives(p, packet, kinds, fields, caps, i);
      forall k | i <= k < |kinds| ensures FieldArrives(p, packet, kinds, caps, k, fields[k], got[k - i]) {
        assert k > i ==> got[k - i] == rest[k - i - 1];
      }
    }
  }

  lemma OneFieldArrives(p: Platform, packet: PacketDef, kinds: seq<PacketType>, fields: seq<SonicValue>, caps: seq<u64>, i: nat)
    requires |kinds| == |fields| == |caps| && i < |kinds| && EncodeType(p, kinds[i], fields[i], PackageAt(packet, kinds, i)).Ok?
    ensures FieldArrives(p, packet, kinds, caps, i, fields[i], Normal(p, kinds[i], fields[i], caps[i], PackageAt(packet, kinds, i)))
  {
    hide EncodeType, Normal, Encodable, Arrives;
    var items := if fields[i].Array? then fields[i].items else [fields[i]];
    EncodesIff(p, kinds[i], fields[i], items, PackageAt(packet, kinds, i));
    NormalArrives(p, kinds[i], fields[i], items, caps[i], PackageAt(packet, kinds, i));
  }

  /** And of an object, field by field. */
  lemma ObjectArrives(p: Platform, packet: PacketDef, value: SonicValue)
    requires p.Valid() && Sendable(p, packet, value) && packet.packetType.ObjectType? && RoomForPacket(packet)
    ensures var kinds, caps := packet.packetType.kinds, packet.dataMax.limits;
            var decoded := DecodePacket(p, packet, EncodePacket(p, packet, value).value);
            && value.Array? && |value.items| == |kinds| == |caps| && decoded.Ok? && decoded.value.Array? && |decoded.value.items| == |kinds|
            && forall i :: 0 <= i < |kinds| ==> FieldArrives(p, packet, kinds, caps, i, value.items[i], decoded.value.items[i])
  {
    hide EncodeType, DecodePacket, EncodeFields, FieldArrives, FieldsAllocatable, Platform.Valid;
    RoundTrip(p, packet, value);
    var kinds, caps, fields := packet.packetType.kinds, packet.dataMax.limits, value.items;
    assert kinds[0..] == kinds && caps[0..] == caps && fields[0..] == fields;
    NormalFieldsArrive(p, packet, kinds, fields, caps, 0);
  }

  // ---- on the wire

  /** The unsigned word that carries a number: the sign is its last bit. */
  ghost predicate CarriedBy(item: SonicValue, word: nat) {
    exists n, w :: Denotes(item, n) && SameWord(n, w) && InI32(w) && word == if w >= 0 then 2 * w else -2 * w - 1
  }

  /** The high byte comes first. */
  function TwoBytes(bytes: seq<byte>): nat
    requires |bytes| == 2
  {
    var high: nat, low: nat := bytes[0], bytes[1];
    0x100 * high + low
  }

  /** The bytes of an item of a kind with a fixed width. */
  ghost predicate WrittenAs(p: Platform, kind: PacketType, item: SonicValue, bytes: seq<byte>)
    requires |bytes| == Width(kind)
  {
    match kind
    case ByteType => CarriedBy(item, bytes[0])
    case UByteType => Denotes(item, bytes[0])
    case Shorts => CarriedBy(item, TwoBytes(bytes))
    case UShorts => Denotes(item, TwoBytes(bytes))
    case Floats => (item.F32? && bytes == p.floats.encode32(item.f)) || (item.F64? && bytes == p.floats.encode32(p.floats.narrow(item.d)))
    case Doubles => (item.F64? && bytes == p.floats.encode64(item.d)) || (item.F32? && bytes == p.floats.encode64(p.floats.widen(item.f)))
    case _ => false
  }

  lemma ZigzagCarries(item: SonicValue, n: int)
    requires Denotes(item, n)
    ensures CarriedBy(item, ZigzagEncode(n))
  {
    hide AsI32;
    WrapsAreCongruent(n);
    CongruentBack(AsI32(n), n);
    assert SameWord(n, AsI32(n)) && InI32(AsI32(n));
  }

  lemma ChunkIsWritten(p: Platform, kind: PacketType, item: SonicValue)
    requires p.Valid() && Width(kind) > 0 && ToChunk(p, kind, item).Ok?
    ensures |ToChunk(p, kind, item).value| == Width(kind) && WrittenAs(p, kind, item, ToChunk(p, kind, item).value)
  {
    hide CarriedBy, ZigzagEncode, Huffman.WellFormed;
    if kind.ByteType? || kind.Shorts? {
      DenotesItsInteger(item);
      ZigzagCarries(item, IntegerOf(item));
    }
  }

  /** Items of fixed width stand one behind the other. */
  lemma {:induction false} ChunksAreWritten(p: Platform, kind: PacketType, vals: seq<SonicValue>)
    requires p.Valid() && Width(kind) > 0 && EncodeChunks(p, kind, vals).Ok?
    ensures |EncodeChunks(p, kind, vals).value| == |vals| * Width(kind)
    ensures forall k :: 0 <= k < |vals| ==> ItemIsWritten(p, kind, vals[k], EncodeChunks(p, kind, vals).value, k * Width(kind))
  {
    hide ToChunk, WrittenAs, Platform.Valid, Width, ItemIsWritten;
    if vals != [] {
      var chunk, rest := ToChunk(p, kind, vals[0]).value, EncodeChunks(p, kind, vals[1..]).value;
      ChunkIsWritten(p, kind, vals[0]);
      ChunksAreWritten(p, kind, vals[1..]);
      var w := Width(kind);
      NextPlace(w, |vals| - 1);
      forall k | 0 <= k < |vals| ensures ItemIsWritten(p, kind, vals[k], chunk + rest, k * w) {
        if k > 0 {
          var before := k - 1;
          assert ItemIsWritten(p, kind, vals[1..][before], rest, before * w);
          NextPlace(w, before);
          WrittenBehind(p, kind, vals[k], chunk, rest, before * w);
        } else {
          WrittenFirst(p, kind, vals[0], chunk, rest);
          assert 0 * w == 0;
        }
      }
    }
  }

  lemma WrittenBehind(p: Platform, kind: PacketType, item: SonicValue, chunk: seq<byte>, rest: seq<byte>, at: nat)
    requires Width(kind) == |chunk| && ItemIsWritten(p, kind, item, rest, at)
    ensures ItemIsWritten(p, kind, item, chunk + rest, at + Width(kind))
  {
    hide WrittenAs, Width;
    var w := Width(kind);
    assert (chunk + rest)[at + w..at + w + w] == rest[at..at + w];
  }

  lemma WrittenFirst(p: Platform, kind: PacketType, item: SonicValue, chunk: seq<byte>, rest: seq<byte>)
    requires Width(kind) == |chunk| && WrittenAs(p, kind, item, chunk)
    ensures ItemIsWritten(p, kind, item, chunk + rest, 0)
  {
    hide WrittenAs, Width;
    assert (chunk + rest)[0..|chunk|] == chunk;
  }

  ghost predicate ItemIsWritten(p: Platform, kind: PacketType, item: SonicValue, bytes: seq<byte>, at: nat) {
    at + Width(kind) <= |bytes| && WrittenAs(p, kind, item, bytes[at..at + Width(kind)])
  }

  lemma NextPlace(w: nat, k: nat)
    ensures (k + 1) * w == k * w + w
  {
  }

  /** The variable-length number that carries an item behind the number `before`. */
  ghost predicate VarintCarries(kind: PacketType, item: SonicValue, before: SonicValue, word: nat) {
    match kind
    case UVarInt => Denotes(item, word)
    case VarInt => CarriedBy(item, word)
    case Deltas => exists n, m :: Denotes(item, n) && Denotes(before, m) && CarriesDifference(n - m, word)
    case _ => false
  }

  ghost predicate CarriesDifference(difference: int, word: nat) {
    exists w :: SameWord(difference, w) && InI32(w) && word == if w >= 0 then 2 * w else -2 * w - 1
  }

  lemma DifferenceIsCarried(n: int, previous: int)
    ensures CarriesDifference(n - previous, ZigzagEncode(AsI64(n - previous)))
  {
    hide AsI32, AsI64, Congruent;
    var d := AsI64(n - previous);
    WrapsAreCongruent(n - previous);
    WrapsAreCongruent(d);
    CongruentTwice(AsI32(d), d, n - previous);
    assert SameWord(n - previous, AsI32(d)) && InI32(AsI32(d));
  }

  lemma CongruentTwice(a: int, b: int, c: int)
    requires Congruent(a, b) && Congruent(b, c)
    ensures SameWord(c, a)
  {
    var q, r := (a - b) / 0x1_0000_0000, (b - c) / 0x1_0000_0000;
    assert c - a == 0x1_0000_0000 * -(q + r);
  }

  lemma VarintIsCarried(kind: PacketType, item: SonicValue, before: SonicValue, previous: i64)
    requires IsVarKind(kind) && ToVarint(kind, item, previous).Ok? && (kind.Deltas? ==> Denotes(before, previous))
    ensures VarintCarries(kind, item, before, ToVarint(kind, item, previous).value.0)
    ensures kind.Deltas? ==> Denotes(item, ToVarint(kind, item, previous).value.1)
  {
    hide ZigzagEncode, AsI64, CarriedBy, CarriesDifference;
    if !kind.UVarInt? {
      var n := IntegerOf(item);
      DenotesItsInteger(item);
      ZigzagCarries(item, n);
      DifferenceIsCarried(n, previous);
    }
  }

  /** Varints are written one behind the other, and deltas as differences of neighbours. */
  lemma {:induction false} VarintsAreWritten(kind: PacketType, vals: seq<SonicValue>, before: SonicValue, previous: i64) returns (words: seq<nat>)
    requires IsVarKind(kind) && EncodeVarints(kind, vals, previous).Ok? && (kind.Deltas? ==> Denotes(before, previous))
    ensures |words| == |vals| && EncodeVarints(kind, vals, previous).value == Varint.EncodeAll(words)
    ensures forall k :: 0 <= k < |vals| ==> VarintCarries(kind, vals[k], Before(before, vals, k), words[k])
    decreases |vals|
  {
    hide Varint.Encode, ToVarint, VarintCarries, Denotes;
    if vals == [] {
      words := [];
    } else {
      var here := ToVarint(kind, vals[0], previous).value;
      VarintIsCarried(kind, vals[0], before, previous);
      var rest := VarintsAreWritten(kind, vals[1..], vals[0], here.1);
      words := [here.0] + rest;
      forall k | 0 <= k < |vals| ensures VarintCarries(kind, vals[k], Before(before, vals, k), words[k]) {
        if k > 0 {
          assert VarintCarries(kind, vals[1..][k - 1], Before(vals[0], vals[1..], k - 1), rest[k - 1]);
        }
      }
    }
  }

  // ---- the limits

  /** Whether the number of values keeps to the limits: bytes and documents are not counted, and booleans in whole bytes. */
  ghost predicate CountKeeps(kind: PacketType, value: SonicValue, items: seq<SonicValue>, min: int, max: int) {
    match kind
    case NoneType | Raw | Reserved16 => true
    case Hex => value.String? && 2 * min <= |value.s| <= 2 * max
    case Booleans => exists bytes: int :: 8 * bytes - 8 < |items| <= 8 * bytes && WholeBytes(bytes, min, max)
    case _ => min <= |items| <= max
  }

  /** So many bytes have room for the minimum, and not a whole byte more than the maximum needs. */
  predicate WholeBytes(bytes: int, min: int, max: int) {
    min <= 8 * bytes < max + 8
  }

  /** A sector that was encoded is accepted if and only if the number of values keeps to the limits. */
  lemma AcceptedIff(p: Platform, kind: PacketType, value: SonicValue, items: seq<SonicValue>, min: u64, max: u64, enums: Option<EnumPackage>)
    requires p.Valid() && SentAs(value, items) && Allocatable(value) && Encodable(p, kind, value, items, enums)
    requires EncodeType(p, kind, value, enums).Ok? ==> |EncodeType(p, kind, value, enums).value| < ADDRESSABLE
    ensures EncodeType(p, kind, value, enums).Ok?
    ensures ValidateType(p, kind, EncodeType(p, kind, value, enums).value, min, max, enums).Ok? <==> CountKeeps(kind, value, items, min, max)
  {
    hide EncodeType, ValidateType, Allocatable, Platform.Valid, IsTaken, Named, HasCodes;
    EncodesIff(p, kind, value, items, enums);
    SentSectorAccepted(p, kind, value, min, max, enums);
    assert Items(value) == items;
    if kind.Booleans? {
      BytesOfBooleans(|items|, min, max);
    }
  }

  lemma BytesOfBooleans(n: nat, min: nat, max: nat)
    ensures CeilDiv(min, 8) <= CeilDiv(n, 8) <= CeilDiv(max, 8) <==> exists bytes: int :: 8 * bytes - 8 < n <= 8 * bytes && WholeBytes(bytes, min, max)
  {
    var bytes: int := CeilDiv(n, 8);
    assert 8 * bytes - 8 < n <= 8 * bytes;
    assert WholeBytes(bytes, min, max) <==> CeilDiv(min, 8) <= CeilDiv(n, 8) <= CeilDiv(max, 8);
  }
}
