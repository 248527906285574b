/** Bytes, results and the offset cursor that every decoder of the wire core reads through. */
module Primitives {

  /** An octet of the wire format. */
  type byte = x: int | 0 <= x < 256

  /** The two error variants that the codec raises, and a panic, which it does not catch. */
  datatype Error = UnexpectedEof(needed: nat, remaining: nat) | InvalidData | Panic

  datatype Result<+T> = Ok(value: T) | Err(error: Error) {
    predicate IsFailure() {
      Err?
    }

    function PropagateFailure<U>(): Result<U>
      requires Err?
    {
      Err(error)
    }

    function Extract(): T
      requires Ok?
    {
      value
    }
  }

  datatype Option<+T> = None | Some(value: T)

  /** Rust refuses to allocate more than `isize::MAX` bytes for one vector. */
  const MAX_ALLOCATION: nat := 0x7FFF_FFFF_FFFF_FFFF

  const U64_LIMIT: nat := 0x1_0000_0000_0000_0000

  function CeilDiv(n: nat, d: nat): nat
    requires d > 0
  {
    (n + d - 1) / d
  }

  /** `piece` occupies `s` from offset `off` on. */
  predicate HasAt<T(==)>(s: seq<T>, off: nat, piece: seq<T>) {
    off + |piece| <= |s| && s[off..off + |piece|] == piece
  }

  lemma HasAtConcat<T>(s: seq<T>, off: nat, left: seq<T>, right: seq<T>)
    ensures HasAt(s, off, left + right) <==> HasAt(s, off, left) && HasAt(s, off + |left|, right)
  {
    if off + |left| + |right| <= |s| {
      var whole := s[off..off + |left| + |right|];
      assert whole == s[off..off + |left|] + s[off + |left|..off + |left| + |right|];
      assert (left + right)[..|left|] == left && (left + right)[|left|..] == right;
      assert whole[..|left|] == s[off..off + |left|];
      assert whole[|left|..] == s[off + |left|..off + |left| + |right|];
    }
  }

  lemma HasAtElement<T>(s: seq<T>, off: nat, piece: seq<T>, i: nat)
    requires HasAt(s, off, piece) && i < |piece|
    ensures s[off + i] == piece[i]
  {
    assert s[off..off + |piece|][i] == s[off + i];
  }

  /** Puts `prefix` in front of a successful result. */
  function Prepend<T>(prefix: seq<T>, rest: Result<seq<T>>): Result<seq<T>> {
    match rest
    case Ok(tail) => Ok(prefix + tail)
    case Err(e) => Err(e)
  }

  lemma PrependPrepend<T>(a: seq<T>, b: seq<T>, rest: Result<seq<T>>)
    ensures Prepend(a, Prepend(b, rest)) == Prepend(a + b, rest)
  {
    if rest.Ok? {
      assert a + (b + rest.value) == (a + b) + rest.value;
    }
  }

  /** The cursor of `wire/reader.rs`: an offset that only moves forward. */
  class Reader {
    const bytes: seq<byte>
    var offset: nat

    ghost predicate Valid()
      reads this
    {
      offset <= |bytes|
    }

    constructor (bytes: seq<byte>)
      ensures Valid() && this.bytes == bytes && offset == 0
    {
      this.bytes := bytes;
      this.offset := 0;
    }

    function Remaining(): nat
      requires Valid()
      reads this
    {
      |bytes| - offset
    }

    predicate IsEmpty()
      requires Valid()
      reads this
    {
      Remaining() == 0
    }

    method ReadExact(len: nat) returns (r: Result<seq<byte>>)
      requires Valid()
      modifies this
      ensures Valid()
      ensures r == ReadExactAt(bytes, old(offset), len)
      ensures offset == if r.Ok? then old(offset) + len else old(offset)
    {
      if len > Remaining() {
        return Err(UnexpectedEof(len, Remaining()));
      }
      var start := offset;
      offset := offset + len;
      return Ok(bytes[start..offset]);
    }

    method ReadU8() returns (r: Result<byte>)
      requires Valid()
      modifies this
      ensures Valid()
      ensures old(offset) < |bytes| ==> r == Ok(bytes[old(offset)]) && offset == old(offset) + 1
      ensures old(offset) == |bytes| ==> r == Err(UnexpectedEof(1, 0)) && offset == old(offset)
    {
      var one :- ReadExact(1);
      return Ok(one[0]);
    }
  }

  function ReadExactAt(bytes: seq<byte>, off: nat, len: nat): Result<seq<byte>>
    requires off <= |bytes|
  {
    if len > |bytes| - off then Err(UnexpectedEof(len, |bytes| - off)) else Ok(bytes[off..off + len])
  }
}
