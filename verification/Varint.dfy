/** Little-endian base-128 integers of at most 64 bits (`primitives/varint.rs`). */
module Varint {
  import opened Primitives

  /** The encoding of `value`: seven bits to a byte, low bits first, the high bit set on all but the last. */
  function Encode(value: nat): (bytes: seq<byte>)
    ensures |bytes| >= 1
  {
    if value < 128 then [value] else [128 + value % 128] + Encode(value / 128)
  }

  /** One more than the largest value that groups `k..9` of a 64-bit integer can hold. */
  function Capacity(k: nat): (c: nat)
    requires k <= 9
    ensures c >= 2 && (k < 9 ==> c >= 256)
    decreases 9 - k
  {
    if k == 9 then 2 else 128 * Capacity(k + 1)
  }

  lemma CapacityOfWord()
    ensures Capacity(0) == U64_LIMIT
  {
    assert Capacity(8) == 256 && Capacity(7) == 0x8000 && Capacity(6) == 0x40_0000;
    assert Capacity(5) == 0x2000_0000 && Capacity(4) == 0x10_0000_0000 && Capacity(3) == 0x800_0000_0000;
    assert Capacity(2) == 0x4_0000_0000_0000 && Capacity(1) == 0x200_0000_0000_0000;
  }

  /**
   * Reads from group `k` on. The tenth group is shifted by 63 places, so only its lowest bit
   * survives in a 64-bit word; an eleventh byte is never looked at.
   */
  function ReadGroups(s: seq<byte>, off: nat, k: nat): (r: Result<(nat, nat)>)
    requires off <= |s| && k <= 10
    ensures r.Ok? ==> k <= 9 && off < r.value.1 <= |s| && r.value.1 <= off + 10 - k && r.value.0 < Capacity(k)
    decreases 10 - k
  {
    if k == 10 then Err(InvalidData)
    else if off == |s| then Err(UnexpectedEof(1, 0))
    else
      var low := if k == 9 then s[off] % 2 else s[off] % 128;
      if s[off] < 128 then Ok((low, off + 1))
      else
        var rest :- ReadGroups(s, off + 1, k + 1);
        Ok((low + 128 * rest.0, rest.1))
  }

  /** The value at offset `off` and the offset behind it. */
  function Read(s: seq<byte>, off: nat): (r: Result<(nat, nat)>)
    requires off <= |s|
    ensures r.Ok? ==> off < r.value.1 <= |s| && r.value.1 <= off + 10 && r.value.0 < U64_LIMIT
  {
    CapacityOfWord();
    ReadGroups(s, off, 0)
  }

  lemma {:induction false} ReadGroupsOfEncode(s: seq<byte>, off: nat, k: nat, value: nat)
    requires k <= 9 && value < Capacity(k) && HasAt(s, off, Encode(value))
    ensures ReadGroups(s, off, k) == Ok((value, off + |Encode(value)|))
    decreases 9 - k
  {
    HasAtElement(s, off, Encode(value), 0);
    if value >= 128 {
      HasAtConcat(s, off, [128 + value % 128], Encode(value / 128));
      ReadGroupsOfEncode(s, off + 1, k + 1, value / 128);
    }
  }

  /** Every 64-bit value is read back wherever its encoding stands, and the cursor stops right behind it. */
  lemma ReadOfEncode(s: seq<byte>, off: nat, value: nat)
    requires value < U64_LIMIT && HasAt(s, off, Encode(value))
    ensures Read(s, off) == Ok((value, off + |Encode(value)|))
  {
    CapacityOfWord();
    ReadGroupsOfEncode(s, off, 0, value);
  }

  lemma OneRun(s: seq<byte>, off: nat, a: nat, b: nat)
    requires off < a <= b <= |s| && IsRun(s[off..a]) && IsRun(s[off..b])
    ensures a == b
  {
    var shorter, longer, last := s[off..a], s[off..b], a - 1 - off;
    assert shorter[last] == s[a - 1] && longer[last] == s[a - 1];
    assert shorter[|shorter| - 1] < 128;
  }

  /** A value is read if and only if a run of at most ten bytes begins here. */
  lemma ReadIff(s: seq<byte>, off: nat, next: nat)
    requires off <= |s|
    ensures Read(s, off).Ok? && Read(s, off).value.1 == next <==>
            off < next <= |s| && next - off <= 10 && IsRun(s[off..next])
  {
    hide Read, GroupSum;
    ReadIsSum(s, off);
    if off < next <= |s| && next - off <= 10 && IsRun(s[off..next]) {
      assert s[next - 1] == s[off..next][next - 1 - off] < 128;
      if Read(s, off).Ok? {
        var other := Read(s, off).value.1;
        if other <= next {
          OneRun(s, off, other, next);
        } else {
          OneRun(s, off, next, other);
        }
      }
    }
  }

  function Pow128(n: nat): (p: nat)
    ensures p > 0
  {
    if n == 0 then 1 else 128 * Pow128(n - 1)
  }

  /** `n` groups of seven bits hold exactly the values below `128^n`. */
  lemma {:induction false} EncodeWidth(value: nat, n: nat)
    requires n > 0
    ensures |Encode(value)| <= n <==> value < Pow128(n)
  {
    if n == 1 {
      assert Pow128(1) == 128 * Pow128(0);
    } else if value >= 128 {
      EncodeWidth(value / 128, n - 1);
    } else {
      assert Pow128(n) == 128 * Pow128(n - 1);
    }
  }

  lemma Pow128Values()
    ensures Pow128(5) == 0x8_0000_0000 && Pow128(10) == 0x40_0000_0000_0000_0000
  {
    assert Pow128(2) == 0x4000 && Pow128(3) == 0x20_0000 && Pow128(4) == 0x1000_0000;
    assert Pow128(6) == 0x400_0000_0000 && Pow128(7) == 0x2_0000_0000_0000;
    assert Pow128(8) == 0x100_0000_0000_0000 && Pow128(9) == 0x8000_0000_0000_0000;
  }

  /** A 64-bit value takes at most ten bytes and a 32-bit value at most five, which is what the writers reserve. */
  lemma EncodeReserve(value: nat)
    ensures value < U64_LIMIT ==> |Encode(value)| <= 10
    ensures value < 0x1_0000_0000 ==> |Encode(value)| <= 5
  {
    Pow128Values();
    EncodeWidth(value, 10);
    EncodeWidth(value, 5);
  }

  /** Bytes with the high bit set, and one without it behind them. */
  predicate IsRun(bytes: seq<byte>) {
    |bytes| > 0 && bytes[|bytes| - 1] < 128 && forall i :: 0 <= i < |bytes| - 1 ==> bytes[i] >= 128
  }

  /** The number whose groups of seven bits these bytes hold, low bits first. */
  function GroupSum(bytes: seq<byte>): nat {
    if bytes == [] then 0 else bytes[0] % 128 + 128 * GroupSum(bytes[1..])
  }

  lemma SingleRun(b: byte)
    requires b < 128
    ensures IsRun([b]) && GroupSum([b]) == b
  {
    assert [b][1..] == [] && GroupSum([]) == 0;
  }

  lemma RunWithGroup(b: byte, rest: seq<byte>)
    requires b >= 128 && IsRun(rest)
    ensures IsRun([b] + rest) && GroupSum([b] + rest) == b - 128 + 128 * GroupSum(rest)
  {
    assert ([b] + rest)[1..] == rest;
  }

  /** The encoding of a value is a run that holds it, and there is no shorter one. */
  lemma {:induction false} EncodeIsRun(value: nat)
    ensures IsRun(Encode(value)) && GroupSum(Encode(value)) == value
  {
    hide IsRun, GroupSum;
    if value < 128 {
      SingleRun(value);
    } else {
      EncodeIsRun(value / 128);
      RunWithGroup(128 + value % 128, Encode(value / 128));
    }
  }

  lemma {:induction false} EncodeIsShortest(bytes: seq<byte>)
    requires IsRun(bytes)
    ensures |Encode(GroupSum(bytes))| <= |bytes|
    decreases |bytes|
  {
    hide IsRun;
    var value := GroupSum(bytes);
    IsRunLength(bytes);
    if value >= 128 {
      assert value / 128 == GroupSum(bytes[1..]) > 0;
      assert bytes[1..] != [];
      TailIsRun(bytes);
      EncodeIsShortest(bytes[1..]);
    }
  }

  lemma IsRunLength(bytes: seq<byte>)
    ensures IsRun(bytes) ==> bytes != []
  {
  }

  lemma TailIsRun(bytes: seq<byte>)
    requires IsRun(bytes) && |bytes| > 1
    ensures IsRun(bytes[1..])
  {
  }

  /** A run was read from group `k` on, and its sum is the value and a multiple of what the groups can hold. */
  ghost predicate HoldsRun(s: seq<byte>, off: nat, k: nat, value: nat, next: nat, quotient: nat)
    requires k <= 9
  {
    && off < next <= |s| && next - off <= 10 - k && IsRun(s[off..next])
    && GroupSum(s[off..next]) == value + Capacity(k) * quotient
  }

  /** No run ends within the groups that are left. */
  ghost predicate NoRun(s: seq<byte>, off: nat, k: nat, e: Error) {
    && (forall i :: off <= i < |s| && i < off + 10 - k ==> s[i] >= 128)
    && e == if |s| - off < 10 - k then UnexpectedEof(1, 0) else InvalidData
  }

  lemma {:induction false} ReadGroupsSum(s: seq<byte>, off: nat, k: nat) returns (quotient: nat)
    requires off <= |s| && k <= 9
    ensures match ReadGroups(s, off, k)
            case Ok((value, next)) => HoldsRun(s, off, k, value, next, quotient)
            case Err(e) => NoRun(s, off, k, e)
    decreases 10 - k
  {
    hide IsRun, GroupSum;
    quotient := 0;
    if off < |s| {
      if s[off] < 128 {
        quotient := if k == 9 then s[off] / 2 else 0;
        ShortRun(s, off);
        if k == 9 {
          assert Capacity(9) == 2;
        } else {
          assert Capacity(k) * 0 == 0;
        }
      } else if k < 9 {
        quotient := ReadGroupsSum(s, off + 1, k + 1);
        var rest := ReadGroups(s, off + 1, k + 1);
        if rest.Ok? {
          LongerRun(s, off, rest.value.1);
          NextQuotient(rest.value.0, Capacity(k + 1), quotient, s[off] % 128);
        }
      }
    }
  }

  lemma ShortRun(s: seq<byte>, off: nat)
    requires off < |s| && s[off] < 128
    ensures IsRun(s[off..off + 1]) && GroupSum(s[off..off + 1]) == s[off]
  {
    assert s[off..off + 1] == [s[off]] && [s[off]][1..] == [];
    assert GroupSum([s[off]]) == s[off] % 128 + 128 * GroupSum([]);
  }

  lemma LongerRun(s: seq<byte>, off: nat, next: nat)
    requires off + 1 < next <= |s| && s[off] >= 128 && IsRun(s[off + 1..next])
    ensures IsRun(s[off..next]) && GroupSum(s[off..next]) == s[off] % 128 + 128 * GroupSum(s[off + 1..next])
  {
    assert s[off..next][1..] == s[off + 1..next];
    var run, tail := s[off..next], s[off + 1..next];
    forall i | 0 <= i < |run| - 1 ensures run[i] >= 128 {
      assert i > 0 ==> run[i] == tail[i - 1];
    }
    assert run[|run| - 1] == tail[|tail| - 1];
  }

  lemma NextQuotient(value: nat, capacity: nat, quotient: nat, low: nat)
    ensures low + 128 * (value + capacity * quotient) == (low + 128 * value) + 128 * capacity * quotient
  {
    assert 128 * (capacity * quotient) == (128 * capacity) * quotient;
  }

  /** For arbitrary bytes: what is read at `off`, and why nothing is. */
  lemma ReadIsSum(s: seq<byte>, off: nat)
    requires off <= |s|
    ensures match Read(s, off)
            case Ok((value, next)) => IsRun(s[off..next]) && next - off <= 10 && value == GroupSum(s[off..next]) % U64_LIMIT
            case Err(e) => (forall i :: off <= i < |s| && i < off + 10 ==> s[i] >= 128) && e == if |s| - off < 10 then UnexpectedEof(1, 0) else InvalidData
  {
    CapacityOfWord();
    var quotient := ReadGroupsSum(s, off, 0);
    hide IsRun, GroupSum, ReadGroups, Capacity;
    if Read(s, off).Ok? {
      var (value, next) := Read(s, off).value;
      WordOfSum(GroupSum(s[off..next]), value, quotient);
    }
  }

  lemma WordOfSum(sum: nat, value: nat, quotient: nat)
    requires value < U64_LIMIT && sum == value + U64_LIMIT * quotient
    ensures value == sum % U64_LIMIT
  {
  }

  /** Several integers in a row. */
  function EncodeAll(values: seq<nat>): seq<byte> {
    if values == [] then [] else Encode(values[0]) + EncodeAll(values[1..])
  }

  lemma {:induction false} EncodeAllConcat(a: seq<nat>, b: seq<nat>)
    ensures EncodeAll(a + b) == EncodeAll(a) + EncodeAll(b)
  {
    hide Encode;
    if a == [] {
      assert a + b == b;
    } else {
      EncodeAllConcat(a[1..], b);
      assert (a + b)[1..] == a[1..] + b;
    }
  }

  /** A row of 64-bit integers is determined by its bytes and its length. */
  lemma {:induction false} EncodeAllIsInjective(a: seq<nat>, b: seq<nat>)
    requires |a| == |b| && forall i :: 0 <= i < |a| ==> a[i] < U64_LIMIT && b[i] < U64_LIMIT
    ensures EncodeAll(a) == EncodeAll(b) ==> a == b
  {
    hide Encode, Read;
    if a != [] && EncodeAll(a) == EncodeAll(b) {
      var s := EncodeAll(a);
      ReadOfEncode(s, 0, a[0]);
      ReadOfEncode(s, 0, b[0]);
      assert s[|Encode(a[0])|..] == EncodeAll(a[1..]);
      assert s[|Encode(b[0])|..] == EncodeAll(b[1..]);
      EncodeAllIsInjective(a[1..], b[1..]);
      assert a == [a[0]] + a[1..] && b == [b[0]] + b[1..];
    }
  }

  /** The writing loop: one byte a turn, until nothing of the value is left. */
  method EncodeLoop(input: nat) returns (writer: seq<byte>)
    ensures writer == Encode(input)
  {
    var value := input;
    writer := [];
    while true
      invariant writer + Encode(value) == Encode(input)
      decreases value
    {
      var low: byte := value % 128;
      ghost var before := value;
      value := value / 128;
      if value != 0 {
        low := low + 128;
      }
      assert Encode(before) == [low] + if value == 0 then [] else Encode(value);
      assert (writer + [low]) + Encode(value) == writer + ([low] + Encode(value));
      writer := writer + [low];
      if value == 0 {
        return;
      }
    }
  }

  /** `whole` is what remains to be read from group `k` on, scaled and added to `value`. */
  ghost predicate Continues(whole: Result<(nat, nat)>, s: seq<byte>, off: nat, k: nat, value: nat, scale: nat)
    requires off <= |s| && k <= 10
  {
    match ReadGroups(s, off, k)
    case Ok((rest, next)) => whole == Ok((value + scale * rest, next))
    case Err(e) => whole == Err(e)
  }

  lemma Distribute(value: nat, scale: nat, low: nat, rest: nat)
    ensures value + scale * (low + 128 * rest) == (value + scale * low) + (128 * scale) * rest
  {
    assert scale * (low + 128 * rest) == scale * low + scale * (128 * rest);
    assert scale * (128 * rest) == (128 * scale) * rest;
  }

  lemma ContinueWithGroup(whole: Result<(nat, nat)>, s: seq<byte>, off: nat, k: nat, value: nat, scale: nat)
    requires off < |s| && k < 10 && Continues(whole, s, off, k, value, scale)
    ensures var low := if k == 9 then s[off] % 2 else s[off] % 128;
            if s[off] < 128 then whole == Ok((value + scale * low, off + 1))
            else Continues(whole, s, off + 1, k + 1, value + scale * low, 128 * scale)
  {
    if s[off] >= 128 {
      var rest := ReadGroups(s, off + 1, k + 1);
      if rest.Ok? {
        Distribute(value, scale, s[off] % 128, rest.value.0);
      }
    }
  }

  /** The reading loop: `scale` is the weight `2^shift` of the next group. */
  method Decode(reader: Reader) returns (r: Result<nat>)
    requires reader.Valid()
    modifies reader
    ensures reader.Valid()
    ensures match Read(reader.bytes, old(reader.offset))
            case Ok((value, next)) => r == Ok(value) && reader.offset == next
            case Err(e) => r == Err(e)
  {
    var value: nat, scale: nat := 0, 1;
    ghost var whole := Read(reader.bytes, reader.offset);
    for k := 0 to 10
      invariant reader.Valid()
      invariant Continues(whole, reader.bytes, reader.offset, k, value, scale)
    {
      ghost var off := reader.offset;
      var b :- reader.ReadU8();
      ContinueWithGroup(whole, reader.bytes, off, k, value, scale);
      // (b & 0x7f) << 63 keeps one bit
      var low := if k == 9 then b % 2 else b % 128;
      value := value + scale * low;
      if b < 128 {
        return Ok(value);
      }
      scale := 128 * scale;
    }
    return Err(InvalidData);
  }
}
