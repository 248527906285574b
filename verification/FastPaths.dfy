/** The JavaScript shortcuts around the native core (`ts/src/native/wrapper.ts`), which fill typed arrays themselves. */
module FastPaths {
  import opened Primitives
  import opened Integers
  import opened Schema
  import opened Codec
  import Batching
  import Varint

  /** A JavaScript number: integral, or anything else. */
  datatype Number = Integral(n: int) | Fractional

  datatype Encoded = Encoded(bytes: seq<byte>) | TypeError | RangeError

  function Clamp(n: int): (c: int)
    ensures InI32(c) && (InI32(n) <==> c == n)
  {
    if n < -0x8000_0000 then -0x8000_0000 else if n > 0x7FFF_FFFF then 0x7FFF_FFFF else n
  }

  /** The word that is written for a number. */
  function Word(n: int, signed: bool): nat
    requires signed || n >= 0
  {
    if signed then ZigzagEncode(Clamp(n)) else n
  }

  function Rejects(number: Number, signed: bool): Option<Encoded> {
    if number.Fractional? then Some(TypeError)
    else if !signed && (number.n < 0 || number.n > 0xFFFF_FFFF) then Some(RangeError)
    else None
  }

  /** What is no integer is refused for its type, and what no 32-bit unsigned integer holds for its range; signed integers are all taken. */
  lemma RejectsIff(number: Number, signed: bool)
    ensures Rejects(number, signed) == Some(TypeError) <==> number.Fractional?
    ensures Rejects(number, signed) == Some(RangeError) <==> number.Integral? && !signed && !(0 <= number.n < 0x1_0000_0000)
    ensures Rejects(number, signed).None? <==> number.Integral? && (signed || 0 <= number.n < 0x1_0000_0000)
  {
  }

  function WordsOf(numbers: seq<Number>, signed: bool): (words: seq<nat>)
    requires forall i :: 0 <= i < |numbers| ==> Rejects(numbers[i], signed).None?
    ensures |words| == |numbers|
  {
    seq(|numbers|, i requires 0 <= i < |numbers| && Rejects(numbers[i], signed).None? => Word(numbers[i].n, signed))
  }

  /** The bytes of all numbers, or the error of the first one that is refused. */
  predicate IsEncodingOf(result: Encoded, numbers: seq<Number>, signed: bool) {
    match result
    case Encoded(bytes) =>
      (forall i :: 0 <= i < |numbers| ==> Rejects(numbers[i], signed).None?) && bytes == Varint.EncodeAll(WordsOf(numbers, signed))
    case _ =>
      exists i :: 0 <= i < |numbers| && Rejects(numbers[i], signed) == Some(result) && forall j :: 0 <= j < i ==> Rejects(numbers[j], signed).None?
  }

  lemma WordsExtend(a: seq<nat>, word: nat)
    ensures Varint.EncodeAll(a + [word]) == Varint.EncodeAll(a) + Varint.Encode(word)
  {
    hide Varint.Encode;
    Varint.EncodeAllConcat(a, [word]);
    assert [word][1..] == [];
  }

  // ---- writing into a typed array

  /** The `do … while` loop that both fast paths share: the digits of `word` at `offset`. */
  method PutVarint(output: array<byte>, offset: nat, word: nat) returns (next: nat)
    requires offset + |Varint.Encode(word)| <= output.Length
    modifies output
    ensures next == offset + |Varint.Encode(word)|
    ensures output[..next] == old(output[..offset]) + Varint.Encode(word)
  {
    var value := word;
    next := offset;
    ghost var done: seq<byte> := [];
    while true
      invariant done + Varint.Encode(value) == Varint.Encode(word)
      invariant next == offset + |done| && next < output.Length
      invariant output[..next] == old(output[..offset]) + done
      decreases value
    {
      var low: byte := value % 128;
      ghost var before := value;
      value := value / 128;
      if value != 0 {
        low := low + 128;
      }
      assert Varint.Encode(before) == [low] + if value == 0 then [] else Varint.Encode(value);
      ghost var prefix := output[..next];
      output[next] := low;
      assert output[..next] == prefix;
      next := next + 1;
      assert output[..next] == prefix + [low];
      assert (done + [low]) + Varint.Encode(value) == done + ([low] + Varint.Encode(value));
      done := done + [low];
      if value == 0 {
        return;
      }
    }
  }

  /** `encodeIntegerVarints`: five bytes are set aside for every number, and they always suffice. */
  method EncodeIntegerVarints(source: seq<Number>, signed: bool) returns (r: Encoded)
    ensures IsEncodingOf(r, source, signed)
    ensures r.Encoded? ==> |r.bytes| <= 5 * |source|
  {
    hide Varint.Encode, Varint.EncodeAll, ZigzagEncode;
    var output := new byte[|source| * 5];
    var offset: nat := 0;
    assert Varint.EncodeAll(WordsOf(source[..0], signed)) == [] by {
      WordsOfNothing();
    }
    for i := 0 to |source|
      invariant forall j :: 0 <= j < i ==> Rejects(source[j], signed).None?
      invariant offset <= 5 * i
      invariant output[..offset] == Varint.EncodeAll(WordsOf(source[..i], signed))
    {
      var original := source[i];
      if original.Fractional? {
        return TypeError;
      }
      if !signed && (original.n < 0 || original.n > 0xFFFF_FFFF) {
        return RangeError;
      }
      var integer := if signed then Max(-0x8000_0000, Min(0x7FFF_FFFF, original.n)) else original.n;
      var value := if signed then ZigzagEncode(integer) else integer;
      Varint.EncodeReserve(value);
      WordsExtend(WordsOf(source[..i], signed), value);
      assert WordsOf(source[..i + 1], signed) == WordsOf(source[..i], signed) + [value];
      offset := PutVarint(output, offset, value);
    }
    assert source[..|source|] == source;
    return Encoded(output[..offset]);
  }

  lemma WordsOfNothing()
    ensures Varint.EncodeAll([]) == []
  {
  }

  function Max(a: int, b: int): int {
    if a > b then a else b
  }

  function Min(a: int, b: int): int {
    if a < b then a else b
  }

  // ---- against the Rust core

  /** The numbers as values of the core, which takes 64 bits. */
  function AsValues(numbers: seq<Number>, signed: bool): seq<SonicValue>
    requires forall i :: 0 <= i < |numbers| ==> Carried(numbers[i], signed)
  {
    seq(|numbers|, i requires 0 <= i < |numbers| && Carried(numbers[i], signed) => if signed then I64(numbers[i].n) else U64(numbers[i].n))
  }

  predicate Carried(number: Number, signed: bool) {
    number.Integral? && if signed then InI64(number.n) else 0 <= number.n < U64_LIMIT
  }

  /** The core casts to 32 bits where the shortcut clamps. */
  predicate SameWord(number: Number, signed: bool) {
    number.Integral? && (signed ==> AsI32(number.n) == Clamp(number.n))
  }

  function CoreWord(n: int, signed: bool): nat
    requires signed || n >= 0
  {
    if signed then ZigzagEncode(n) else n
  }

  function CoreWords(numbers: seq<Number>, signed: bool): (words: seq<nat>)
    requires forall i :: 0 <= i < |numbers| ==> Carried(numbers[i], signed)
    ensures |words| == |numbers|
  {
    seq(|numbers|, i requires 0 <= i < |numbers| && Carried(numbers[i], signed) => CoreWord(numbers[i].n, signed))
  }

  lemma {:induction false} CoreWrites(numbers: seq<Number>, signed: bool, previous: i64)
    requires forall i :: 0 <= i < |numbers| ==> Carried(numbers[i], signed)
    ensures EncodeVarints(if signed then VarInt else UVarInt, AsValues(numbers, signed), previous)
         == Ok(Varint.EncodeAll(CoreWords(numbers, signed)))
    decreases |numbers|
  {
    hide Varint.Encode, ZigzagEncode;
    var vals := AsValues(numbers, signed);
    var words := CoreWords(numbers, signed);
    if numbers != [] {
      var rest := numbers[1..];
      var here := ToVarint(if signed then VarInt else UVarInt, vals[0], previous);
      assert here.Ok? && here.value.0 == words[0];
      CoreWrites(rest, signed, here.value.1);
      assert vals[1..] == AsValues(rest, signed);
      assert words[1..] == CoreWords(rest, signed);
    }
  }

  lemma ZigzagDistinguishes(a: int, b: int)
    ensures ZigzagEncode(a) == ZigzagEncode(b) <==> AsI32(a) == AsI32(b)
  {
    ZigzagInverse(a, 0);
    ZigzagInverse(b, 0);
  }

  /**
   * The shortcut writes the bytes of the core if and only if every number is below the point where casting and clamping
   * differ. For unsigned numbers nothing differs once the shortcut accepts them.
   */
  lemma ShortcutIsCore(numbers: seq<Number>, signed: bool)
    requires forall i :: 0 <= i < |numbers| ==> Carried(numbers[i], signed) && Rejects(numbers[i], signed).None?
    ensures EncodeVarints(if signed then VarInt else UVarInt, AsValues(numbers, signed), 0) == Ok(Varint.EncodeAll(WordsOf(numbers, signed)))
       <==> forall i :: 0 <= i < |numbers| ==> SameWord(numbers[i], signed)
  {
    hide EncodeVarints, Varint.EncodeAll;
    CoreWrites(numbers, signed, 0);
    var core := CoreWords(numbers, signed);
    var words := WordsOf(numbers, signed);
    Varint.EncodeAllIsInjective(core, words);
    forall i | 0 <= i < |numbers| ensures core[i] == words[i] <==> SameWord(numbers[i], signed) {
      if signed {
        ZigzagDistinguishes(numbers[i].n, Clamp(numbers[i].n));
      }
    }
    if forall i :: 0 <= i < |numbers| ==> SameWord(numbers[i], signed) {
      assert core == words;
    }
  }

  /** In particular for all 32-bit numbers. */
  lemma ShortcutIsCoreOn32Bits(numbers: seq<Number>, signed: bool)
    requires forall i :: 0 <= i < |numbers| ==> numbers[i].Integral? && if signed then InI32(numbers[i].n) else 0 <= numbers[i].n <= 0xFFFF_FFFF
    ensures forall i :: 0 <= i < |numbers| ==> Carried(numbers[i], signed) && Rejects(numbers[i], signed).None?
    ensures EncodeVarints(if signed then VarInt else UVarInt, AsValues(numbers, signed), 0) == Ok(Varint.EncodeAll(WordsOf(numbers, signed)))
  {
    assert forall i :: 0 <= i < |numbers| ==> Carried(numbers[i], signed);
    ShortcutIsCore(numbers, signed);
  }

  /** 2^31 is clamped to 2^31 - 1 by the shortcut, and cast to -2^31 by the core. */
  lemma ShortcutDiffers()
    ensures var numbers := [Integral(0x8000_0000)];
            && (forall i :: 0 <= i < |numbers| ==> Carried(numbers[i], true) && Rejects(numbers[i], true).None?)
            && WordsOf(numbers, true) == [0xFFFF_FFFE] && CoreWords(numbers, true) == [0xFFFF_FFFF]
            && EncodeVarints(VarInt, AsValues(numbers, true), 0) != Ok(Varint.EncodeAll(WordsOf(numbers, true)))
  {
    hide EncodeVarints, Varint.EncodeAll;
    var numbers := [Integral(0x8000_0000)];
    assert !SameWord(numbers[0], true);
    ShortcutIsCore(numbers, true);
    assert WordsOf(numbers, true) == [Word(0x8000_0000, true)];
  }

  // ---- batches

  /** Uncompressed `encodeNativeBatch`: a pass that adds up the size, then a pass that fills an array of just that size. */
  method EncodeNativeBatch(payloads: seq<seq<byte>>) returns (output: array<byte>)
    ensures fresh(output) && output[..] == Batching.EncodeBatches(payloads)
  {
    hide Varint.Encode, Batching.EncodeBatches;
    var size := BatchSize(payloads);
    output := new byte[size];
    var offset: nat := 0;
    BatchesEnd(payloads);
    for i := 0 to |payloads|
      invariant offset <= output.Length
      invariant output[..offset] == Batching.EncodeBatches(payloads[..i])
      invariant output.Length - offset == |Batching.EncodeBatches(payloads[i..])|
    {
      ghost var before := output[..offset];
      NextBatch(payloads, i);
      var start := PutVarint(output, offset, |payloads[i]|);
      ghost var framed := output[..start];
      for k := 0 to |payloads[i]|
        invariant start + |payloads[i]| <= output.Length
        invariant output[..start + k] == framed + payloads[i][..k]
      {
        output[start + k] := payloads[i][k];
        assert output[..start + k + 1] == output[..start + k] + [payloads[i][k]];
        assert payloads[i][..k + 1] == payloads[i][..k] + [payloads[i][k]];
      }
      assert payloads[i][..|payloads[i]|] == payloads[i];
      offset := start + |payloads[i]|;
    }
    assert output[..] == output[..offset];
  }

  /** One byte a payload, one more for every division that leaves something, and the payload itself. */
  method BatchSize(payloads: seq<seq<byte>>) returns (size: nat)
    ensures size == |Batching.EncodeBatches(payloads)|
  {
    hide Batching.EncodeBatches;
    size := 0;
    BatchesEnd(payloads);
    for i := 0 to |payloads|
      invariant size == |Batching.EncodeBatches(payloads[..i])|
    {
      NextBatch(payloads, i);
      var length: nat := |payloads[i]|;
      size := size + length + 1;
      ghost var start := size;
      while length >= 128
        invariant size + |Varint.Encode(length)| == start + |Varint.Encode(|payloads[i]|)|
      {
        size := size + 1;
        length := length / 128;
      }
    }
  }

  lemma BatchesEnd(payloads: seq<seq<byte>>)
    ensures Batching.EncodeBatches(payloads[..0]) == []
    ensures payloads[..|payloads|] == payloads && payloads[0..] == payloads
    ensures Batching.EncodeBatches(payloads[|payloads|..]) == []
  {
  }

  lemma {:induction false} BatchesConcat(a: seq<seq<byte>>, b: seq<seq<byte>>)
    ensures Batching.EncodeBatches(a + b) == Batching.EncodeBatches(a) + Batching.EncodeBatches(b)
  {
    hide Batching.Frame;
    if a == [] {
      assert a + b == b;
    } else {
      BatchesConcat(a[1..], b);
      assert (a + b)[1..] == a[1..] + b;
    }
  }

  lemma NextBatch(payloads: seq<seq<byte>>, i: nat)
    requires i < |payloads|
    ensures Batching.EncodeBatches(payloads[..i + 1])
         == Batching.EncodeBatches(payloads[..i]) + Varint.Encode(|payloads[i]|) + payloads[i]
    ensures |Batching.EncodeBatches(payloads[i..])|
         == |Varint.Encode(|payloads[i]|)| + |payloads[i]| + |Batching.EncodeBatches(payloads[i + 1..])|
  {
    hide Varint.Encode;
    assert payloads[..i + 1] == payloads[..i] + [payloads[i]];
    BatchesConcat(payloads[..i], [payloads[i]]);
    var none: seq<seq<byte>> := [];
    assert [payloads[i]][1..] == none;
    assert payloads[i..][1..] == payloads[i + 1..];
  }
}
