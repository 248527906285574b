/** The static prefix code for text (`primitives/huffman.rs`), with the code table as a parameter. */
module Huffman {
  import opened Primitives
  import Bits

  /** One row of the code table. */
  datatype Entry = Entry(code: seq<bool>, ch: char)

  type Table = seq<Entry>

  /** What the constant table of the source satisfies: one non-empty, prefix-free code for each character. */
  ghost predicate WellFormed(table: Table) {
    && (forall i :: 0 <= i < |table| ==> table[i].code != [])
    && (forall i, j :: 0 <= i < |table| && 0 <= j < |table| && i != j ==> !(table[i].code <= table[j].code))
    && (forall i, j :: 0 <= i < j < |table| ==> table[i].ch != table[j].ch)
  }

  function FindCharacter(table: Table, ch: char): (r: Option<seq<bool>>)
    ensures r.Some? ==> exists i :: 0 <= i < |table| && table[i] == Entry(r.value, ch)
  {
    if table == [] then None
    else if table[0].ch == ch then Some(table[0].code)
    else FindCharacter(table[1..], ch)
  }

  function FindCode(table: Table, code: seq<bool>): (r: Option<char>)
    ensures r.Some? ==> exists i :: 0 <= i < |table| && table[i] == Entry(code, r.value)
    ensures r.None? ==> forall i :: 0 <= i < |table| ==> table[i].code != code
  {
    if table == [] then None
    else if table[0].code == code then Some(table[0].ch)
    else FindCode(table[1..], code)
  }

  /** The concatenated codes of a text, if every character has one. */
  function EncodeBits(table: Table, text: string): Option<seq<bool>> {
    if text == [] then Some([])
    else match (FindCharacter(table, text[0]), EncodeBits(table, text[1..]))
      case (Some(code), Some(rest)) => Some(code + rest)
      case _ => None
  }

  function Encode(table: Table, text: string): Option<seq<byte>> {
    match EncodeBits(table, text)
    case Some(bits) => Some(Bits.Pack(bits))
    case None => None
  }

  ghost predicate IsEncodingOf(table: Table, text: string, bytes: seq<byte>, length: nat) {
    |text| == length && Encode(table, text) == Some(bytes)
  }

  /** The text of `length` characters that is encoded as exactly `bytes`, if there is one. */
  ghost function Inverse(table: Table, bytes: seq<byte>, length: nat): (r: Option<string>)
    ensures r.Some? ==> IsEncodingOf(table, r.value, bytes, length)
    ensures r.None? ==> forall text :: !IsEncodingOf(table, text, bytes, length)
  {
    if text: string :| IsEncodingOf(table, text, bytes, length) then Some(text) else None
  }

  lemma {:induction false} FindCharacterOf(table: Table, i: nat)
    requires WellFormed(table) && i < |table|
    ensures FindCharacter(table, table[i].ch) == Some(table[i].code)
  {
    if table[0].ch != table[i].ch {
      assert table[1..][i - 1] == table[i];
      WellFormedTail(table);
      FindCharacterOf(table[1..], i - 1);
    }
  }

  lemma WellFormedTail(table: Table)
    requires WellFormed(table) && table != []
    ensures WellFormed(table[1..])
  {
    var tail := table[1..];
    forall i, j | 0 <= i < |tail| && 0 <= j < |tail| && i != j ensures !(tail[i].code <= tail[j].code) {
      assert tail[i] == table[i + 1] && tail[j] == table[j + 1];
    }
  }

  lemma {:induction false} EncodeBitsConcat(table: Table, left: string, right: string)
    ensures EncodeBits(table, left + right) ==
            match (EncodeBits(table, left), EncodeBits(table, right))
            case (Some(a), Some(b)) => Some(a + b)
            case _ => None
  {
    if left == [] {
      assert left + right == right;
      if EncodeBits(table, right).Some? {
        assert [] + EncodeBits(table, right).value == EncodeBits(table, right).value;
      }
    } else {
      assert (left + right)[1..] == left[1..] + right;
      EncodeBitsConcat(table, left[1..], right);
      if FindCharacter(table, left[0]).Some? && EncodeBits(table, left[1..]).Some? && EncodeBits(table, right).Some? {
        var c, a, b := FindCharacter(table, left[0]).value, EncodeBits(table, left[1..]).value, EncodeBits(table, right).value;
        assert c + (a + b) == (c + a) + b;
      }
    }
  }

  /** Two codes that start the same bit string are the same row. */
  lemma CodesAgree(table: Table, a: char, b: char, stream: seq<bool>)
    requires WellFormed(table)
    requires FindCharacter(table, a).Some? && FindCharacter(table, a).value <= stream
    requires FindCharacter(table, b).Some? && FindCharacter(table, b).value <= stream
    ensures a == b
  {
    var i :| 0 <= i < |table| && table[i] == Entry(FindCharacter(table, a).value, a);
    var j :| 0 <= j < |table| && table[j] == Entry(FindCharacter(table, b).value, b);
  }

  /** Of two texts whose codes start the same bit string, the shorter one starts the longer one. */
  lemma {:induction false} TextsAgree(table: Table, short: string, long: string, stream: seq<bool>)
    requires WellFormed(table) && |short| <= |long|
    requires EncodeBits(table, short).Some? && EncodeBits(table, short).value <= stream
    requires EncodeBits(table, long).Some? && EncodeBits(table, long).value <= stream
    ensures short <= long
    decreases |short|
  {
    if short != [] {
      var c := FindCharacter(table, short[0]).value;
      var d := FindCharacter(table, long[0]).value;
      assert c <= EncodeBits(table, short).value && d <= EncodeBits(table, long).value;
      assert c <= stream && d <= stream;
      CodesAgree(table, short[0], long[0], stream);
      assert EncodeBits(table, short).value[|c|..] == EncodeBits(table, short[1..]).value;
      assert EncodeBits(table, long).value[|c|..] == EncodeBits(table, long[1..]).value;
      TextsAgree(table, short[1..], long[1..], stream[|c|..]);
      assert short == [short[0]] + short[1..] && long == [long[0]] + long[1..];
    }
  }

  /** The bits of every encoding stand at the front of the unpacked bytes. */
  lemma EncodedBitsLead(table: Table, text: string, bytes: seq<byte>)
    requires Encode(table, text) == Some(bytes)
    ensures EncodeBits(table, text).value <= Bits.Unpack(bytes, 8 * |bytes|)
  {
    var bits := EncodeBits(table, text).value;
    Bits.PackIsUnique(bits, bytes);
    forall p | 0 <= p < |bits| ensures bits[p] == Bits.Unpack(bytes, 8 * |bytes|)[p] {
      assert Bits.BitAt(bytes, p) == Bits.Present(bits, p);
    }
  }

  /** With the number of characters known, the bytes determine the text. */
  lemma EncodingIsInjective(table: Table, a: string, b: string, bytes: seq<byte>)
    requires WellFormed(table) && |a| == |b|
    requires Encode(table, a) == Some(bytes) && Encode(table, b) == Some(bytes)
    ensures a == b
  {
    EncodedBitsLead(table, a, bytes);
    EncodedBitsLead(table, b, bytes);
    TextsAgree(table, a, b, Bits.Unpack(bytes, 8 * |bytes|));
  }

  /** Decoding recovers every encodable text, and what it accepts is the encoding of what it returns. */
  lemma InverseIsExact(table: Table, text: string, bytes: seq<byte>, length: nat)
    requires WellFormed(table)
    ensures Inverse(table, bytes, length) == Some(text) <==> |text| == length && Encode(table, text) == Some(bytes)
  {
    if IsEncodingOf(table, text, bytes, length) && Inverse(table, bytes, length).Some? {
      EncodingIsInjective(table, text, Inverse(table, bytes, length).value, bytes);
    }
  }

  /** The encoding loop collects the codes as it meets the characters; the first unknown one ends it. Then bytes are put together. */
  method EncodeHuffman(table: Table, text: string) returns (r: Option<seq<byte>>)
    ensures r == Encode(table, text)
  {
    var bits: seq<bool> := [];
    for i := 0 to |text|
      invariant EncodeBits(table, text[..i]) == Some(bits)
    {
      assert text == text[..i] + text[i..] && text[..i + 1] == text[..i] + [text[i]];
      EncodeBitsConcat(table, text[..i], text[i..]);
      EncodeBitsConcat(table, text[..i], [text[i]]);
      assert EncodeBits(table, []) == Some([]) && [text[i]][1..] == [];
      var code := FindCharacter(table, text[i]);
      if code.None? {
        return None;
      }
      assert code.value + [] == code.value;
      bits := bits + code.value;
    }
    assert text[..|text|] == text;
    var out := Bits.PackLoop(bits);
    return Some(out);
  }

  /** `buffer` follows the codes of `result` in the stream and holds no complete code. */
  ghost predicate Reached(table: Table, stream: seq<bool>, position: nat, result: string, buffer: seq<bool>) {
    && position <= |stream|
    && EncodeBits(table, result).Some?
    && EncodeBits(table, result).value + buffer == stream[..position]
    && forall i :: 0 <= i < |table| ==> !(table[i].code <= buffer)
  }

  /** The row with which `text` goes on after `result`. */
  lemma NextRow(table: Table, stream: seq<bool>, result: string, text: string) returns (i: nat)
    requires WellFormed(table) && |result| < |text|
    requires EncodeBits(table, result).Some? && EncodeBits(table, result).value <= stream
    requires EncodeBits(table, text).Some? && EncodeBits(table, text).value <= stream
    ensures i < |table| && EncodeBits(table, result).value + table[i].code <= stream
  {
    var k := |result|;
    TextsAgree(table, result, text, stream);
    assert text == result + text[k..];
    EncodeBitsConcat(table, result, text[k..]);
    var code, rest := FindCharacter(table, text[k]).value, EncodeBits(table, text[k + 1..]);
    assert text[k..][1..] == text[k + 1..];
    i :| 0 <= i < |table| && table[i] == Entry(code, text[k]);
    var e := EncodeBits(table, result).value;
    assert EncodeBits(table, text).value == e + (code + rest.value) == (e + code) + rest.value;
  }

  /** A longer text in the same stream would have to go on with a code that properly extends the buffer. */
  lemma NextCode(table: Table, stream: seq<bool>, position: nat, result: string, buffer: seq<bool>, text: string)
    requires WellFormed(table) && Reached(table, stream, position, result, buffer)
    requires |result| < |text| && EncodeBits(table, text).Some? && EncodeBits(table, text).value <= stream
    ensures position < |stream|
    ensures exists i :: 0 <= i < |table| && buffer + [stream[position]] <= table[i].code
  {
    var e := EncodeBits(table, result).value;
    assert e <= stream by { assert e == stream[..position][..|e|]; }
    var i := NextRow(table, stream, result, text);
    var code := table[i].code;
    RestOfStream(stream, position, e, code, buffer);
    CodeExtends(code, buffer, stream[|e|..]);
  }

  lemma RestOfStream(stream: seq<bool>, position: nat, e: seq<bool>, code: seq<bool>, buffer: seq<bool>)
    requires position <= |stream| && e + code <= stream && e + buffer == stream[..position]
    ensures code <= stream[|e|..] && buffer <= stream[|e|..]
  {
    assert e + code == stream[..|e| + |code|];
    assert stream[|e|..][..|code|] == (e + code)[|e|..] == code;
    assert stream[|e|..][..|buffer|] == (e + buffer)[|e|..] == buffer;
  }

  lemma Shorter<T>(a: seq<T>, b: seq<T>, whole: seq<T>)
    requires a <= whole && b <= whole && |a| <= |b|
    ensures a <= b
  {
    assert a == whole[..|a|] && b == whole[..|b|];
  }

  lemma CodeExtends(code: seq<bool>, buffer: seq<bool>, rest: seq<bool>)
    requires code <= rest && buffer <= rest && !(code <= buffer)
    ensures |buffer| < |rest| && buffer + [rest[|buffer|]] <= code
  {
    assert code == rest[..|code|] && buffer == rest[..|buffer|];
    if |code| <= |buffer| {
      Shorter(code, buffer, rest);
    }
    assert buffer + [rest[|buffer|]] == rest[..|buffer| + 1] == code[..|buffer| + 1];
  }

  /** One bit more, and neither a code nor the end of one. */
  lemma Extend(table: Table, stream: seq<bool>, position: nat, result: string, before: seq<bool>, buffer: seq<bool>)
    requires Reached(table, stream, position, result, before) && position < |stream|
    requires buffer == before + [stream[position]] && FindCode(table, buffer) == None
    ensures Reached(table, stream, position + 1, result, buffer)
  {
    assert stream[..position + 1] == stream[..position] + [stream[position]];
    var e := EncodeBits(table, result).value;
    assert e + buffer == (e + before) + [stream[position]];
    forall i | 0 <= i < |table| ensures !(table[i].code <= buffer) {
      assert |table[i].code| <= |before| ==> buffer[..|table[i].code|] == before[..|table[i].code|];
    }
  }

  /** One bit more completes a code. */
  lemma Complete(table: Table, stream: seq<bool>, position: nat, result: string, before: seq<bool>, buffer: seq<bool>, ch: char)
    requires WellFormed(table)
    requires Reached(table, stream, position, result, before) && position < |stream|
    requires buffer == before + [stream[position]] && FindCode(table, buffer) == Some(ch)
    ensures Reached(table, stream, position + 1, result + [ch], [])
    ensures EncodeBits(table, result + [ch]) == Some(stream[..position + 1])
  {
    assert stream[..position + 1] == stream[..position] + [stream[position]];
    var e := EncodeBits(table, result).value;
    assert e + buffer == (e + before) + [stream[position]];
    AppendCharacter(table, result, buffer, ch);
    assert stream[..position + 1] + [] == stream[..position + 1];
  }

  lemma NothingReached(table: Table, stream: seq<bool>)
    requires WellFormed(table)
    ensures Reached(table, stream, 0, "", [])
  {
  }

  lemma EmptyText(table: Table, bytes: seq<byte>)
    requires WellFormed(table)
    ensures Inverse(table, bytes, 0) == if bytes == [] then Some("") else None
  {
    InverseIsExact(table, "", bytes, 0);
  }

  /** The loop over single bits; at each step the buffer is looked up as a whole and then as a prefix. */
  method DecodeHuffmanExact(table: Table, bytes: seq<byte>, expected: nat) returns (r: Option<string>)
    requires WellFormed(table)
    ensures r == Inverse(table, bytes, expected)
  {
    hide WellFormed, Inverse, IsEncodingOf, EncodeBits, Encode, Reached;
    if expected == 0 {
      EmptyText(table, bytes);
      return if bytes == [] then Some("") else None;
    }
    var total := 8 * |bytes|;
    ghost var stream := Bits.Unpack(bytes, total);
    var result, buffer: seq<bool>, produced := "", [], 0;
    NothingReached(table, stream);
    for position := 0 to total
      invariant Reached(table, stream, position, result, buffer)
      invariant produced == |result| < expected
    {
      ghost var before := buffer;
      buffer := buffer + [Bits.BitAt(bytes, position)];
      var found := FindCode(table, buffer);
      if found.Some? {
        Complete(table, stream, position, result, before, buffer, found.value);
        result := result + [found.value];
        buffer := [];
        produced := produced + 1;
        if produced == expected {
          r := Finish(table, bytes, position, result);
          return;
        }
      } else if exists i :: 0 <= i < |table| && buffer <= table[i].code {
        Extend(table, stream, position, result, before, buffer);
      } else {
        NoText(table, bytes, expected, position, result, before);
        return None;
      }
    }
    NoText(table, bytes, expected, total, result, buffer);
    return None;
  }

  lemma AppendCharacter(table: Table, result: string, code: seq<bool>, ch: char)
    requires WellFormed(table) && EncodeBits(table, result).Some?
    requires FindCode(table, code) == Some(ch)
    ensures EncodeBits(table, result + [ch]) == Some(EncodeBits(table, result).value + code)
  {
    var i :| 0 <= i < |table| && table[i] == Entry(code, ch);
    FindCharacterOf(table, i);
    EncodeBitsConcat(table, result, [ch]);
    assert [ch][1..] == [] && code + [] == code;
  }

  /** When nothing extends the buffer by the next bit, or no bit is left, no text has this encoding. */
  lemma NoText(table: Table, bytes: seq<byte>, expected: nat, position: nat, result: string, buffer: seq<bool>)
    requires WellFormed(table) && |result| < expected
    requires Reached(table, Bits.Unpack(bytes, 8 * |bytes|), position, result, buffer)
    requires position == 8 * |bytes|
             || !exists i :: 0 <= i < |table| && buffer + [Bits.BitAt(bytes, position)] <= table[i].code
    ensures Inverse(table, bytes, expected) == None
  {
    var inverse := Inverse(table, bytes, expected);
    if inverse.Some? {
      EncodedBitsLead(table, inverse.value, bytes);
      NextCode(table, Bits.Unpack(bytes, 8 * |bytes|), position, result, buffer, inverse.value);
    }
  }

  lemma PaddingIsZero(table: Table, bytes: seq<byte>, result: string)
    requires WellFormed(table) && EncodeBits(table, result).Some?
    requires EncodeBits(table, result).value <= Bits.Unpack(bytes, 8 * |bytes|)
    ensures Inverse(table, bytes, |result|) ==
            if Bits.Holds(bytes, EncodeBits(table, result).value) then Some(result) else None
  {
    var inverse := Inverse(table, bytes, |result|);
    assert Bits.Pack(EncodeBits(table, result).value) == bytes <==> Bits.Holds(bytes, EncodeBits(table, result).value) by {
      Bits.PackIsUnique(EncodeBits(table, result).value, bytes);
    }
    InverseIsExact(table, result, bytes, |result|);
    if inverse.Some? {
      OnlyCandidate(table, bytes, result, inverse.value);
    }
  }

  lemma OnlyCandidate(table: Table, bytes: seq<byte>, result: string, text: string)
    requires WellFormed(table) && EncodeBits(table, result).Some?
    requires EncodeBits(table, result).value <= Bits.Unpack(bytes, 8 * |bytes|)
    requires IsEncodingOf(table, text, bytes, |result|)
    ensures text == result
  {
    EncodedBitsLead(table, text, bytes);
    TextsAgree(table, result, text, Bits.Unpack(bytes, 8 * |bytes|));
  }

  /** The check of the padding once all characters are there. */
  method Finish(table: Table, bytes: seq<byte>, position: nat, result: string) returns (r: Option<string>)
    requires WellFormed(table) && position < 8 * |bytes|
    requires EncodeBits(table, result) == Some(Bits.Unpack(bytes, 8 * |bytes|)[..position + 1])
    ensures r == Inverse(table, bytes, |result|)
  {
    var total := 8 * |bytes|;
    var remaining := total - position - 1;
    PaddingIsZero(table, bytes, result);
    ghost var bits := EncodeBits(table, result).value;
    assert forall p :: 0 <= p <= position ==> bits[p] == Bits.BitAt(bytes, p);
    if remaining > 7 || exists p :: position + 1 <= p < total && Bits.BitAt(bytes, p) {
      assert !Bits.Holds(bytes, bits);
      return None;
    }
    assert Bits.Holds(bytes, bits);
    return Some(result);
  }
}
