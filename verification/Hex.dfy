/** Hexadecimal text (`primitives/hex.rs`). */
module Hex {
  import opened Primitives

  function Digit(d: nat): char
    requires d < 16
  {
    if d < 10 then (0x30 + d) as char else (0x57 + d) as char
  }

  function DigitValue(c: char): (r: Option<nat>)
    ensures r.Some? ==> r.value < 16
  {
    if '0' <= c <= '9' then Some(c as int - 0x30)
    else if 'a' <= c <= 'f' then Some(c as int - 0x57)
    else if 'A' <= c <= 'F' then Some(c as int - 0x37)
    else None
  }

  /** Two lower-case digits for every byte. */
  function Encode(bytes: seq<byte>): (text: string)
    ensures |text| == 2 * |bytes|
  {
    if bytes == [] then "" else [Digit(bytes[0] / 16), Digit(bytes[0] % 16)] + Encode(bytes[1..])
  }

  /** `u8::from_str_radix` on two characters: a leading plus sign is accepted. */
  function Pair(high: char, low: char): (r: Result<byte>)
  {
    match (DigitValue(high), DigitValue(low))
    case (Some(h), Some(l)) => Ok(16 * h + l)
    case (None, Some(l)) => if high == '+' then Ok(l) else Err(InvalidData)
    case _ => Err(InvalidData)
  }

  /** The number of bytes of a character in UTF-8. */
  function Utf8Width(c: char): (w: nat)
    ensures 1 <= w <= 4
  {
    if c as int < 0x80 then 1 else if c as int < 0x800 then 2 else if c as int < 0x1_0000 then 3 else 4
  }

  function Utf8Length(text: string): nat {
    if text == "" then 0 else Utf8Width(text[0]) + Utf8Length(text[1..])
  }

  /** Reads two bytes at a time. Two bytes can be one character, which is no number; cutting a character in two is a panic. */
  function DecodePairs(text: string): (r: Result<seq<byte>>)
    ensures r.Ok? ==> |text| == 2 * |r.value|
  {
    if text == "" then Ok([])
    else if Utf8Width(text[0]) == 2 then Err(InvalidData)
    else if Utf8Width(text[0]) > 2 || |text| == 1 || Utf8Width(text[1]) > 1 then Err(Panic)
    else
      var b :- Pair(text[0], text[1]);
      var rest :- DecodePairs(text[2..]);
      Ok([b] + rest)
  }

  function Decode(text: string): (r: Result<seq<byte>>)
    ensures r.Ok? ==> |text| == 2 * |r.value|
  {
    if Utf8Length(text) % 2 != 0 then Err(InvalidData) else DecodePairs(text)
  }

  /** Accepted text is ASCII, so its length in characters is that in bytes. */
  lemma {:induction false} AcceptedIsAscii(text: string)
    requires DecodePairs(text).Ok?
    ensures Utf8Length(text) == |text| && |text| % 2 == 0
  {
    if text != "" {
      AcceptedIsAscii(text[2..]);
      assert text[1..][1..] == text[2..];
    }
  }

  /** Decoding succeeds exactly where reading pairs does. */
  lemma DecodeIsPairs(text: string)
    ensures DecodePairs(text).Ok? ==> Decode(text) == DecodePairs(text)
  {
    if DecodePairs(text).Ok? {
      AcceptedIsAscii(text);
    }
  }

  /** Every byte sequence survives the way through text. */
  lemma {:induction false} DecodeOfEncode(bytes: seq<byte>)
    ensures Decode(Encode(bytes)) == Ok(bytes) && DecodePairs(Encode(bytes)) == Ok(bytes)
  {
    hide Digit, Pair, Utf8Width;
    if bytes != [] {
      DecodeOfEncode(bytes[1..]);
      DigitsOfByte(bytes[0]);
      var text := Encode(bytes);
      assert text[0] == Digit(bytes[0] / 16) && text[1] == Digit(bytes[0] % 16) && text[2..] == Encode(bytes[1..]);
      assert bytes == [bytes[0]] + bytes[1..];
    }
    DecodeIsPairs(Encode(bytes));
  }

  lemma DigitsOfByte(b: byte)
    ensures Pair(Digit(b / 16), Digit(b % 16)) == Ok(b)
    ensures Utf8Width(Digit(b / 16)) == 1 && Utf8Width(Digit(b % 16)) == 1
  {
  }

  function LowerCase(text: string): string {
    seq(|text|, i requires 0 <= i < |text| => if 'A' <= text[i] <= 'F' then (text[i] as int + 0x20) as char else text[i])
  }

  lemma {:induction false} EncodedIsLowerCase(bytes: seq<byte>)
    ensures LowerCase(Encode(bytes)) == Encode(bytes)
  {
    if bytes != [] {
      EncodedIsLowerCase(bytes[1..]);
      var text, rest := Encode(bytes), Encode(bytes[1..]);
      assert text == [Digit(bytes[0] / 16), Digit(bytes[0] % 16)] + rest;
      assert LowerCase(text) == LowerCase(text[..2]) + LowerCase(rest);
    }
  }

  /** A text comes back in lower case if and only if it was read without a plus sign. */
  lemma {:induction false} EncodeOfDecode(text: string)
    requires Decode(text).Ok?
    ensures Encode(Decode(text).value) == LowerCase(text) <==> '+' !in text
  {
    hide Digit, DigitValue, Pair, Utf8Width;
    if text != "" {
      var rest := text[2..];
      var b := Pair(text[0], text[1]).value;
      var bytes := DecodePairs(rest).value;
      DecodeIsPairs(rest);
      EncodeOfDecode(rest);
      assert text == text[..2] + rest;
      assert ([b] + bytes)[1..] == bytes;
      assert LowerCase(text) == LowerCase(text[..2]) + LowerCase(rest);
      assert Encode([b] + bytes) == [Digit(b / 16), Digit(b % 16)] + Encode(bytes);
      assert Encode([b] + bytes)[2..] == Encode(bytes) && LowerCase(text)[2..] == LowerCase(rest);
      assert Encode([b] + bytes)[..2] == [Digit(b / 16), Digit(b % 16)] && LowerCase(text)[..2] == LowerCase(text[..2]);
      PairText(text[0], text[1]);
    }
  }

  lemma PairText(high: char, low: char)
    requires Pair(high, low).Ok?
    ensures var b := Pair(high, low).value;
            [Digit(b / 16), Digit(b % 16)] == LowerCase([high, low]) <==> high != '+'
    ensures low != '+'
  {
    var b := Pair(high, low).value;
    var l := DigitValue(low).value;
    assert b % 16 == l;
    assert LowerCase([high, low])[0] == if 'A' <= high <= 'F' then (high as int + 0x20) as char else high;
    assert LowerCase([high, low])[1] == Digit(l);
    if high != '+' {
      assert b / 16 == DigitValue(high).value;
    } else {
      assert b / 16 == 0;
    }
  }

  /** A number with a sign is read and loses it. */
  lemma PlusSignIsLost()
    ensures Decode("+5") == Ok([5]) && Encode([5]) == "05"
  {
    assert Pair('+', '5') == Ok(5) && Digit(0) == '0' && Digit(5) == '5';
    assert "+5"[2..] == "" && DecodePairs("") == Ok([]) && [5] + [] == [5];
    assert DecodePairs("+5") == Ok([5]);
    DecodeIsPairs("+5");
    assert [5][1..] == [] && Encode([]) == "";
    assert Encode([5]) == ['0', '5'] + "";
  }

  method DecodeLoop(text: string) returns (r: Result<seq<byte>>)
    ensures r == Decode(text)
  {
    hide Utf8Width;
    if Utf8Length(text) % 2 != 0 {
      return Err(InvalidData);
    }
    var out: seq<byte> := [];
    var index: nat := 0;
    assert text[0..] == text;
    assert DecodePairs(text) == Prepend([], DecodePairs(text)) by {
      assert DecodePairs(text).Ok? ==> [] + DecodePairs(text).value == DecodePairs(text).value;
    }
    while index < |text|
      invariant index <= |text|
      invariant DecodePairs(text) == Prepend(out, DecodePairs(text[index..]))
    {
      if index + 2 <= |text| {
        assert text[index..][2..] == text[index + 2..];
      }
      if Utf8Width(text[index]) == 2 {
        return Err(InvalidData);
      }
      if Utf8Width(text[index]) > 2 || index + 1 == |text| || Utf8Width(text[index + 1]) > 1 {
        return Err(Panic);
      }
      var b :- Pair(text[index], text[index + 1]);
      PrependPrepend(out, [b], DecodePairs(text[index + 2..]));
      out := out + [b];
      index := index + 2;
    }
    assert out + [] == out;
    return Ok(out);
  }
}
