/** Lists of strings on the wire: Huffman-coded and as code points (`primitives/strings.rs`). */
module Strings {
  import opened Primitives
  import Varint
  import Huffman

  function Join(values: seq<string>): string {
    if values == [] then "" else values[0] + Join(values[1..])
  }

  function Lengths(values: seq<string>): (lengths: seq<nat>)
    ensures |lengths| == |values|
  {
    seq(|values|, i requires 0 <= i < |values| => |values[i]|)
  }

  function Sum(lengths: seq<nat>): nat {
    if lengths == [] then 0 else lengths[0] + Sum(lengths[1..])
  }

  /** Reads `count` varints from `off` on. */
  function ReadMany(bytes: seq<byte>, off: nat, count: nat): (r: Result<(seq<nat>, nat)>)
    requires off <= |bytes|
    ensures r.Ok? ==> |r.value.0| == count && off + count <= r.value.1 <= |bytes|
    ensures r.Ok? ==> forall i :: 0 <= i < count ==> r.value.0[i] < U64_LIMIT
    decreases count
  {
    if count == 0 then Ok(([], off))
    else
      var first :- Varint.Read(bytes, off);
      var rest :- ReadMany(bytes, first.1, count - 1);
      Ok(([first.0] + rest.0, rest.1))
  }

  lemma {:induction false} ReadManyOfEncodeAll(bytes: seq<byte>, off: nat, numbers: seq<nat>)
    requires off <= |bytes| && HasAt(bytes, off, Varint.EncodeAll(numbers))
    requires forall i :: 0 <= i < |numbers| ==> numbers[i] < U64_LIMIT
    ensures ReadMany(bytes, off, |numbers|) == Ok((numbers, off + |Varint.EncodeAll(numbers)|))
    decreases |numbers|
  {
    hide Varint.Read, Varint.Encode;
    if numbers != [] {
      HasAtConcat(bytes, off, Varint.Encode(numbers[0]), Varint.EncodeAll(numbers[1..]));
      Varint.ReadOfEncode(bytes, off, numbers[0]);
      ReadManyOfEncodeAll(bytes, off + |Varint.Encode(numbers[0])|, numbers[1..]);
      assert numbers == [numbers[0]] + numbers[1..];
    }
  }

  /** Cuts a text into pieces of the given lengths. */
  function Split(text: string, lengths: seq<nat>): (values: seq<string>)
    requires |text| == Sum(lengths)
    ensures |values| == |lengths|
    decreases |lengths|
  {
    if lengths == [] then [] else [text[..lengths[0]]] + Split(text[lengths[0]..], lengths[1..])
  }

  lemma {:induction false} SplitOfJoin(values: seq<string>)
    ensures |Join(values)| == Sum(Lengths(values))
    ensures Split(Join(values), Lengths(values)) == values
  {
    if values != [] {
      SplitOfJoin(values[1..]);
      assert Lengths(values)[1..] == Lengths(values[1..]);
      assert Join(values)[..|values[0]|] == values[0] && Join(values)[|values[0]|..] == Join(values[1..]);
    }
  }

  lemma {:induction false} JoinOfSplit(text: string, lengths: seq<nat>)
    requires |text| == Sum(lengths)
    ensures Join(Split(text, lengths)) == text && Lengths(Split(text, lengths)) == lengths
    decreases |lengths|
  {
    if lengths != [] {
      hide Lengths;
      var head, tail := text[..lengths[0]], Split(text[lengths[0]..], lengths[1..]);
      JoinOfSplit(text[lengths[0]..], lengths[1..]);
      assert Split(text, lengths) == [head] + tail;
      assert ([head] + tail)[1..] == tail;
      LengthsSplit(head, tail);
      assert text == head + text[lengths[0]..] && lengths == [lengths[0]] + lengths[1..];
    }
  }

  lemma LengthsSplit(head: string, tail: seq<string>)
    ensures Lengths([head] + tail) == [|head|] + Lengths(tail)
  {
  }

  // ---- Huffman-coded lists

  /** The count, the length of every string, and all characters in one Huffman text. */
  function EncodeAscii(table: Huffman.Table, values: seq<string>): Result<seq<byte>> {
    match Huffman.Encode(table, Join(values))
    case Some(payload) => Ok(Varint.Encode(|values|) + Varint.EncodeAll(Lengths(values)) + payload)
    case None => Err(InvalidData)
  }

  /**
   * The loop that cuts a text at the lengths, from `offset` on. Additions wrap to 64 bits in a release build, and a slice
   * that would end before it starts is a panic.
   */
  function Cut(text: string, lengths: seq<nat>, offset: nat): Result<seq<string>>
    requires offset <= |text|
    decreases |lengths|
  {
    if lengths == [] then Ok([])
    else
      var end := (offset + lengths[0]) % U64_LIMIT;
      if end > |text| then Err(InvalidData)
      else if end < offset then Err(Panic)
      else Prepend([text[offset..end]], Cut(text, lengths[1..], end))
  }

  /** The sizes in bytes of an element of the two vectors that are allocated for the announced count. */
  const USIZE_SIZE: nat := 8
  const STRING_SIZE: nat := 24

  ghost function DecodeAscii(table: Huffman.Table, bytes: seq<byte>): Result<seq<string>> {
    var count :- Varint.Read(bytes, 0);
    if USIZE_SIZE * count.0 > MAX_ALLOCATION then Err(Panic)
    else
      var lengths :- ReadMany(bytes, count.1, count.0);
      match Huffman.Inverse(table, bytes[lengths.1..], Sum(lengths.0) % U64_LIMIT)
      case None => Err(InvalidData)
      case Some(text) => if STRING_SIZE * count.0 > MAX_ALLOCATION then Err(Panic) else Cut(text, lengths.0, 0)
  }

  lemma {:induction false} CutIsSplit(text: string, lengths: seq<nat>, offset: nat)
    requires |text| < U64_LIMIT && offset + Sum(lengths) == |text|
    ensures Cut(text, lengths, offset) == Ok(Split(text[offset..], lengths))
    decreases |lengths|
  {
    if lengths != [] {
      var end := offset + lengths[0];
      CutIsSplit(text, lengths[1..], end);
      assert text[offset..][..lengths[0]] == text[offset..end] && text[offset..][lengths[0]..] == text[end..];
    }
  }

  /** When the sum of the lengths wraps, cutting fails: at a length beyond the text, or in a panic. */
  lemma {:induction false} WrappedCutFails(text: string, lengths: seq<nat>, offset: nat)
    requires offset <= |text| < U64_LIMIT <= offset + Sum(lengths)
    requires forall i :: 0 <= i < |lengths| ==> lengths[i] < U64_LIMIT
    ensures Cut(text, lengths, offset).Err?
    decreases |lengths|
  {
    if lengths != [] && offset + lengths[0] <= |text| {
      WrappedCutFails(text, lengths[1..], offset + lengths[0]);
    }
  }

  /** What decoding accepts: lengths that do not wrap, with a text that is cut at them. */
  lemma AcceptedAscii(table: Huffman.Table, bytes: seq<byte>)
    requires Varint.Read(bytes, 0).Ok? && ReadMany(bytes, Varint.Read(bytes, 0).value.1, Varint.Read(bytes, 0).value.0).Ok?
    ensures var count := Varint.Read(bytes, 0).value;
            var (lengths, next) := ReadMany(bytes, count.1, count.0).value;
            var text := Huffman.Inverse(table, bytes[next..], Sum(lengths));
            && (DecodeAscii(table, bytes).Ok? <==> STRING_SIZE * count.0 <= MAX_ALLOCATION && Sum(lengths) < U64_LIMIT && text.Some?)
            && (DecodeAscii(table, bytes).Ok? ==> DecodeAscii(table, bytes) == Ok(Split(text.value, lengths)))
  {
    hide Varint.Read, ReadMany, Sum, Split, Cut;
    var count := Varint.Read(bytes, 0).value;
    var (lengths, next) := ReadMany(bytes, count.1, count.0).value;
    var wrapped := Huffman.Inverse(table, bytes[next..], Sum(lengths) % U64_LIMIT);
    if wrapped.Some? {
      if Sum(lengths) < U64_LIMIT {
        CutIsSplit(wrapped.value, lengths, 0);
        assert wrapped.value[0..] == wrapped.value;
      } else {
        WrappedCutFails(wrapped.value, lengths, 0);
      }
    }
  }

  /** Lengths are carried as 64-bit numbers. */
  ghost predicate LengthsFit(values: seq<string>) {
    |values| < U64_LIMIT && forall i :: 0 <= i < |values| ==> |values[i]| < U64_LIMIT
  }

  /** The vector of strings and the text that the encoder joins them to are no longer than vectors can be. */
  ghost predicate FitInMemory(values: seq<string>) {
    STRING_SIZE * |values| <= MAX_ALLOCATION && |Join(values)| <= MAX_ALLOCATION
  }

  lemma {:induction false} JoinedLengths(values: seq<string>)
    ensures forall i :: 0 <= i < |values| ==> |values[i]| <= |Join(values)|
  {
    if values != [] {
      JoinedLengths(values[1..]);
      assert forall i :: 1 <= i < |values| ==> values[i] == values[1..][i - 1];
    }
  }

  lemma HeaderOfAscii(bytes: seq<byte>, lengths: seq<nat>, payload: seq<byte>)
    requires |lengths| < U64_LIMIT && forall i :: 0 <= i < |lengths| ==> lengths[i] < U64_LIMIT
    requires bytes == Varint.Encode(|lengths|) + Varint.EncodeAll(lengths) + payload
    ensures var head := |Varint.Encode(|lengths|)|;
            && Varint.Read(bytes, 0) == Ok((|lengths|, head))
            && head <= |bytes| - |payload|
            && ReadMany(bytes, head, |lengths|) == Ok((lengths, |bytes| - |payload|))
            && bytes[|bytes| - |payload|..] == payload
  {
    hide Varint.Read, Varint.Encode, Varint.EncodeAll, ReadMany;
    assert HasAt(bytes, 0, Varint.Encode(|lengths|) + Varint.EncodeAll(lengths));
    hide HasAt;
    HasAtConcat(bytes, 0, Varint.Encode(|lengths|), Varint.EncodeAll(lengths));
    Varint.ReadOfEncode(bytes, 0, |lengths|);
    ReadManyOfEncodeAll(bytes, |Varint.Encode(|lengths|)|, lengths);
  }

  /** Every list of encodable strings comes back, with the same boundaries. */
  lemma AsciiRoundTrip(table: Huffman.Table, values: seq<string>)
    requires Huffman.WellFormed(table) && FitInMemory(values)
    ensures EncodeAscii(table, values).Ok? ==> DecodeAscii(table, EncodeAscii(table, values).value) == Ok(values)
  {
    hide Varint.Read, Varint.Encode, ReadMany, Sum, Split, Cut, DecodeAscii, Huffman.WellFormed;
    if EncodeAscii(table, values).Ok? {
      var payload := Huffman.Encode(table, Join(values)).value;
      JoinedLengths(values);
      HeaderOfAscii(EncodeAscii(table, values).value, Lengths(values), payload);
      SplitOfJoin(values);
      Huffman.InverseIsExact(table, Join(values), payload, |Join(values)|);
      AcceptedAscii(table, EncodeAscii(table, values).value);
    }
  }

  /** Lengths that wrap to the length of the text are a panic. */
  lemma WrappedLengthsPanic(table: Huffman.Table, text: string, payload: seq<byte>)
    requires Huffman.WellFormed(table) && |text| == 1 && Huffman.Encode(table, text) == Some(payload)
    ensures var lengths := [1, U64_LIMIT - 1, 1];
            DecodeAscii(table, Varint.Encode(|lengths|) + Varint.EncodeAll(lengths) + payload) == Err(Panic)
  {
    hide Varint.Read, Varint.Encode, Varint.EncodeAll, ReadMany, Huffman.WellFormed;
    var lengths := [1, U64_LIMIT - 1, 1];
    HeaderOfAscii(Varint.Encode(|lengths|) + Varint.EncodeAll(lengths) + payload, lengths, payload);
    Huffman.InverseIsExact(table, text, payload, 1);
    assert lengths[1..] == [U64_LIMIT - 1, 1] && lengths[1..][1..] == [1] && lengths[1..][1..][1..] == [];
    assert Sum([1]) == 1 + Sum([]) && Sum([U64_LIMIT - 1, 1]) == U64_LIMIT;
    assert Sum(lengths) == U64_LIMIT + 1;
    assert Cut(text, lengths[1..], 1) == Err(Panic);
    assert Cut(text, lengths, 0) == Err(Panic);
  }

  /** A count for which there is no room is a panic, whatever follows. */
  lemma HugeCountPanics(table: Huffman.Table, bytes: seq<byte>)
    requires Varint.Read(bytes, 0).Ok? && 8 * Varint.Read(bytes, 0).value.0 > 0x7FFF_FFFF_FFFF_FFFF
    ensures DecodeAscii(table, bytes) == Err(Panic)
  {
    hide Varint.Read;
  }

  ghost predicate ReadManyContinues(whole: Result<(seq<nat>, nat)>, bytes: seq<byte>, off: nat, left: nat, done: seq<nat>)
    requires off <= |bytes|
  {
    match ReadMany(bytes, off, left)
    case Ok((rest, next)) => whole == Ok((done + rest, next))
    case Err(e) => whole == Err(e)
  }

  lemma ReadOneMore(whole: Result<(seq<nat>, nat)>, bytes: seq<byte>, off: nat, left: nat, done: seq<nat>)
    requires off <= |bytes| && left > 0 && ReadManyContinues(whole, bytes, off, left, done)
    ensures match Varint.Read(bytes, off)
            case Ok((value, next)) => ReadManyContinues(whole, bytes, next, left - 1, done + [value])
            case Err(e) => whole == Err(e)
  {
    var first := Varint.Read(bytes, off);
    if first.Ok? {
      var rest := ReadMany(bytes, first.value.1, left - 1);
      if rest.Ok? {
        assert done + ([first.value.0] + rest.value.0) == (done + [first.value.0]) + rest.value.0;
      }
    }
  }

  method EncodeAsciiLoop(table: Huffman.Table, values: seq<string>) returns (r: Result<seq<byte>>)
    ensures r == EncodeAscii(table, values)
  {
    hide Varint.Read, Varint.Encode;
    var out := Varint.EncodeLoop(|values|);
    ghost var head := out;
    for i := 0 to |values|
      invariant out == head + Varint.EncodeAll(Lengths(values)[..i])
    {
      assert Lengths(values)[..i + 1] == Lengths(values)[..i] + [|values[i]|];
      Varint.EncodeAllConcat(Lengths(values)[..i], [|values[i]|]);
      assert Varint.EncodeAll([|values[i]|]) == Varint.Encode(|values[i]|) + Varint.EncodeAll([]);
      var length := Varint.EncodeLoop(|values[i]|);
      out := out + length;
    }
    assert Lengths(values)[..|values|] == Lengths(values);
    var payload := Huffman.EncodeHuffman(table, Join(values));
    if payload.None? {
      return Err(InvalidData);
    }
    return Ok(out + payload.value);
  }

  method ReadManyLoop(reader: Reader, count: nat) returns (r: Result<seq<nat>>)
    requires reader.Valid()
    modifies reader
    ensures reader.Valid()
    ensures match ReadMany(reader.bytes, old(reader.offset), count)
            case Ok((lengths, next)) => r == Ok(lengths) && reader.offset == next
            case Err(e) => r == Err(e)
  {
    hide Varint.Read, Varint.Encode;
    ghost var whole := ReadMany(reader.bytes, reader.offset, count);
    var lengths: seq<nat> := [];
    assert whole.Ok? ==> [] + whole.value.0 == whole.value.0;
    for i := 0 to count
      invariant reader.Valid() && |lengths| == i
      invariant ReadManyContinues(whole, reader.bytes, reader.offset, count - i, lengths)
    {
      ReadOneMore(whole, reader.bytes, reader.offset, count - i, lengths);
      var length :- Varint.Decode(reader);
      lengths := lengths + [length];
    }
    assert lengths + [] == lengths;
    return Ok(lengths);
  }

  /** The wrapped sum of the lengths. */
  method SumLoop(lengths: seq<nat>) returns (expected: nat)
    ensures expected == Sum(lengths) % U64_LIMIT
  {
    expected := 0;
    assert lengths[0..] == lengths;
    for i := 0 to |lengths|
      invariant (expected + Sum(lengths[i..])) % U64_LIMIT == Sum(lengths) % U64_LIMIT && expected < U64_LIMIT
    {
      assert lengths[i..][1..] == lengths[i + 1..];
      WrappedSum(expected + lengths[i], Sum(lengths[i + 1..]));
      expected := (expected + lengths[i]) % U64_LIMIT;
    }
  }

  lemma WrappedSum(a: nat, b: nat)
    ensures (a % U64_LIMIT + b) % U64_LIMIT == (a + b) % U64_LIMIT
  {
  }

  method CutLoop(chars: string, lengths: seq<nat>) returns (r: Result<seq<string>>)
    ensures r == Cut(chars, lengths, 0)
  {
    var offset: nat, out: seq<string> := 0, [];
    assert lengths[0..] == lengths;
    assert Prepend([], Cut(chars, lengths, 0)) == Cut(chars, lengths, 0) by {
      assert Cut(chars, lengths, 0).Ok? ==> [] + Cut(chars, lengths, 0).value == Cut(chars, lengths, 0).value;
    }
    for i := 0 to |lengths|
      invariant offset <= |chars|
      invariant Cut(chars, lengths, 0) == Prepend(out, Cut(chars, lengths[i..], offset))
    {
      assert lengths[i..][1..] == lengths[i + 1..];
      var end := (offset + lengths[i]) % U64_LIMIT;
      if end > |chars| {
        return Err(InvalidData);
      }
      if end < offset {
        return Err(Panic);
      }
      PrependPrepend(out, [chars[offset..end]], Cut(chars, lengths[i + 1..], end));
      out := out + [chars[offset..end]];
      offset := end;
    }
    assert out + [] == out;
    return Ok(out);
  }

  method DecodeAsciiLoop(table: Huffman.Table, bytes: seq<byte>) returns (r: Result<seq<string>>)
    requires Huffman.WellFormed(table)
    ensures r == DecodeAscii(table, bytes)
  {
    hide Varint.Read, Varint.Encode, ReadMany, Sum, Cut;
    var reader := new Reader(bytes);
    var count :- Varint.Decode(reader);
    if USIZE_SIZE * count > MAX_ALLOCATION {
      return Err(Panic);
    }
    var lengths :- ReadManyLoop(reader, count);
    var expected := SumLoop(lengths);
    var decoded := Huffman.DecodeHuffmanExact(table, bytes[reader.offset..], expected);
    if decoded.None? {
      return Err(InvalidData);
    }
    if STRING_SIZE * count > MAX_ALLOCATION {
      return Err(Panic);
    }
    r := CutLoop(decoded.value, lengths);
  }

  // ---- Lists of code points

  /** `char::from_u32(code as u32)`: the low 32 bits, if they are a Unicode scalar value. */
  function CharFromCode(code: nat): (r: Option<char>)
  {
    var c := code % 0x1_0000_0000;
    if c < 0xD800 || 0xE000 <= c < 0x11_0000 then Some(c as char) else None
  }

  /** A character is found for a number if and only if it has the last 32 bits of it. */
  lemma CharFromCodeIff(code: nat, ch: char)
    ensures CharFromCode(code) == Some(ch) <==> (code - ch as int) % 0x1_0000_0000 == 0
  {
    var q, c := code / 0x1_0000_0000, code % 0x1_0000_0000;
    if (code - ch as int) % 0x1_0000_0000 == 0 {
      var r := (code - ch as int) / 0x1_0000_0000;
      assert c - ch as int == 0x1_0000_0000 * (r - q);
    }
  }

  function Codes(value: string): (codes: seq<nat>)
    ensures |codes| == |value|
  {
    seq(|value|, i requires 0 <= i < |value| => value[i] as nat)
  }

  function EncodeCodepoints(values: seq<string>): seq<byte> {
    if values == [] then []
    else Varint.Encode(|values[0]|) + Varint.EncodeAll(Codes(values[0])) + EncodeCodepoints(values[1..])
  }

  /** Reads `count` characters. */
  function ReadChars(bytes: seq<byte>, off: nat, count: nat): (r: Result<(string, nat)>)
    requires off <= |bytes|
    ensures r.Ok? ==> |r.value.0| == count && off + count <= r.value.1 <= |bytes|
    decreases count
  {
    if count == 0 then Ok(("", off))
    else
      var code :- Varint.Read(bytes, off);
      match CharFromCode(code.0)
      case None => Err(InvalidData)
      case Some(ch) =>
        var rest :- ReadChars(bytes, code.1, count - 1);
        Ok(([ch] + rest.0, rest.1))
  }

  /** Reads strings until the bytes are used up. */
  function ReadStrings(bytes: seq<byte>, off: nat): (r: Result<seq<string>>)
    requires off <= |bytes|
    ensures r.Ok? ==> |r.value| <= |bytes| - off
    decreases |bytes| - off
  {
    if off == |bytes| then Ok([])
    else
      var length :- Varint.Read(bytes, off);
      var text :- ReadChars(bytes, length.1, length.0);
      var rest :- ReadStrings(bytes, text.1);
      Ok([text.0] + rest)
  }

  lemma {:induction false} ReadCharsOfCodes(bytes: seq<byte>, off: nat, value: string)
    requires off <= |bytes| && HasAt(bytes, off, Varint.EncodeAll(Codes(value)))
    ensures ReadChars(bytes, off, |value|) == Ok((value, off + |Varint.EncodeAll(Codes(value))|))
    decreases |value|
  {
    hide Varint.Read, Varint.Encode;
    if value != "" {
      assert Codes(value)[1..] == Codes(value[1..]);
      HasAtConcat(bytes, off, Varint.Encode(value[0] as nat), Varint.EncodeAll(Codes(value[1..])));
      Varint.ReadOfEncode(bytes, off, value[0] as nat);
      ReadCharsOfCodes(bytes, off + |Varint.Encode(value[0] as nat)|, value[1..]);
      assert value == [value[0]] + value[1..];
    }
  }

  lemma {:induction false} ReadStringsOfEncode(bytes: seq<byte>, off: nat, values: seq<string>)
    requires HasAt(bytes, off, EncodeCodepoints(values)) && off + |EncodeCodepoints(values)| == |bytes|
    requires LengthsFit(values)
    ensures ReadStrings(bytes, off) == Ok(values)
    decreases |values|
  {
    hide Varint.Read, Varint.Encode, HasAt, ReadChars, Varint.EncodeAll;
    if values != [] {
      var head, body := Varint.Encode(|values[0]|), Varint.EncodeAll(Codes(values[0]));
      HasAtConcat(bytes, off, head + body, EncodeCodepoints(values[1..]));
      HasAtConcat(bytes, off, head, body);
      Varint.ReadOfEncode(bytes, off, |values[0]|);
      ReadCharsOfCodes(bytes, off + |head|, values[0]);
      ReadStringsOfEncode(bytes, off + |head| + |body|, values[1..]);
      assert values == [values[0]] + values[1..];
    }
  }

  /** Every list of strings comes back from its code points. */
  lemma CodepointsRoundTrip(values: seq<string>)
    requires LengthsFit(values)
    ensures ReadStrings(EncodeCodepoints(values), 0) == Ok(values)
  {
    ReadStringsOfEncode(EncodeCodepoints(values), 0, values);
  }

  lemma {:induction false} EncodeCodepointsConcat(left: seq<string>, right: seq<string>)
    ensures EncodeCodepoints(left + right) == EncodeCodepoints(left) + EncodeCodepoints(right)
  {
    if left == [] {
      assert left + right == right;
    } else {
      assert (left + right)[1..] == left[1..] + right;
      EncodeCodepointsConcat(left[1..], right);
    }
  }

  method EncodeCodepointsLoop(values: seq<string>) returns (out: seq<byte>)
    ensures out == EncodeCodepoints(values)
  {
    hide Varint.Read, Varint.Encode;
    out := [];
    for i := 0 to |values|
      invariant out == EncodeCodepoints(values[..i])
    {
      ghost var before := out;
      var chars := values[i];
      var length := Varint.EncodeLoop(|chars|);
      out := out + length;
      for j := 0 to |chars|
        invariant out == before + length + Varint.EncodeAll(Codes(chars)[..j])
      {
        assert Codes(chars)[..j + 1] == Codes(chars)[..j] + [chars[j] as nat];
        Varint.EncodeAllConcat(Codes(chars)[..j], [chars[j] as nat]);
        assert Varint.EncodeAll([chars[j] as nat]) == Varint.Encode(chars[j] as nat) + Varint.EncodeAll([]);
        var code := Varint.EncodeLoop(chars[j] as nat);
        out := out + code;
      }
      assert Codes(chars)[..|chars|] == Codes(chars);
      assert values[..i + 1] == values[..i] + [chars];
      EncodeCodepointsConcat(values[..i], [chars]);
      assert EncodeCodepoints([chars]) == length + Varint.EncodeAll(Codes(chars)) + EncodeCodepoints([]);
    }
    assert values[..|values|] == values;
  }

  ghost predicate CharsContinue(whole: Result<(string, nat)>, bytes: seq<byte>, off: nat, left: nat, done: string)
    requires off <= |bytes|
  {
    match ReadChars(bytes, off, left)
    case Ok((rest, next)) => whole == Ok((done + rest, next))
    case Err(e) => whole == Err(e)
  }

  lemma ReadCharMore(whole: Result<(string, nat)>, bytes: seq<byte>, off: nat, left: nat, done: string)
    requires off <= |bytes| && left > 0 && CharsContinue(whole, bytes, off, left, done)
    ensures match Varint.Read(bytes, off)
            case Err(e) => whole == Err(e)
            case Ok((code, next)) =>
              match CharFromCode(code)
              case None => whole == Err(InvalidData)
              case Some(ch) => CharsContinue(whole, bytes, next, left - 1, done + [ch])
  {
    var code := Varint.Read(bytes, off);
    if code.Ok? && CharFromCode(code.value.0).Some? {
      var ch, rest := CharFromCode(code.value.0).value, ReadChars(bytes, code.value.1, left - 1);
      if rest.Ok? {
        assert done + ([ch] + rest.value.0) == (done + [ch]) + rest.value.0;
      }
    }
  }

  method DecodeCodepointsLoop(bytes: seq<byte>) returns (r: Result<seq<string>>)
    ensures r == ReadStrings(bytes, 0)
  {
    hide Varint.Read, Varint.Encode;
    var reader := new Reader(bytes);
    var out: seq<string> := [];
    assert ReadStrings(bytes, 0).Ok? ==> [] + ReadStrings(bytes, 0).value == ReadStrings(bytes, 0).value;
    while !reader.IsEmpty()
      invariant reader.Valid() && reader.bytes == bytes
      invariant ReadStrings(bytes, 0) == Prepend(out, ReadStrings(bytes, reader.offset))
      decreases |bytes| - reader.offset
    {
      var n :- Varint.Decode(reader);
      ghost var start := reader.offset;
      ghost var whole := ReadChars(bytes, start, n);
      var s := "";
      assert whole.Ok? ==> "" + whole.value.0 == whole.value.0;
      for j := 0 to n
        invariant reader.Valid() && reader.bytes == bytes && reader.offset >= start
        invariant CharsContinue(whole, bytes, reader.offset, n - j, s)
      {
        ReadCharMore(whole, bytes, reader.offset, n - j, s);
        var code :- Varint.Decode(reader);
        var ch := CharFromCode(code);
        if ch.None? {
          return Err(InvalidData);
        }
        s := s + [ch.value];
      }
      assert s + [] == s;
      PrependPrepend(out, [s], ReadStrings(bytes, reader.offset));
      out := out + [s];
    }
    assert out + [] == out;
    return Ok(out);
  }
}
