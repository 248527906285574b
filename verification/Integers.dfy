/** Fixed-width integers, the zigzag mapping (`primitives/zigzag.rs`) and delta lists. */
module Integers {

  predicate InI32(n: int) {
    -0x8000_0000 <= n < 0x8000_0000
  }

  predicate InI64(n: int) {
    -0x8000_0000_0000_0000 <= n < 0x8000_0000_0000_0000
  }

  /** The cast `as i32`: the low 32 bits, read as a signed number. */
  function AsI32(n: int): (r: int)
    ensures InI32(r) && (InI32(n) ==> r == n)
  {
    (n + 0x8000_0000) % 0x1_0000_0000 - 0x8000_0000
  }

  /** 64-bit wrap-around of additions and subtractions in a release build. */
  function AsI64(n: int): (r: int)
    ensures InI64(r) && (InI64(n) ==> r == n)
  {
    (n + 0x8000_0000_0000_0000) % 0x1_0000_0000_0000_0000 - 0x8000_0000_0000_0000
  }

  /** `(v << 1) ^ (v >> 31)` on the 32-bit value: the sign moves into the lowest bit. */
  function ZigzagEncode(n: int): (z: nat)
    ensures z < 0x1_0000_0000
  {
    var v := AsI32(n);
    if v >= 0 then 2 * v else -2 * v - 1
  }

  /** `(u >> 1) ^ -(u & 1)` on the low 32 bits. */
  function ZigzagDecode(z: nat): (n: int)
    ensures InI32(n)
  {
    var u := z % 0x1_0000_0000;
    if u % 2 == 0 then u / 2 else -(u / 2) - 1
  }

  /** Zigzag keeps exactly the low 32 bits, and every 32-bit word is the image of one number. */
  lemma ZigzagInverse(n: int, z: nat)
    ensures ZigzagDecode(ZigzagEncode(n)) == AsI32(n)
    ensures z < 0x1_0000_0000 ==> ZigzagEncode(ZigzagDecode(z)) == z
    ensures -0x80 <= n < 0x80 <==> InI32(n) && ZigzagEncode(n) < 0x100
    ensures -0x8000 <= n < 0x8000 <==> InI32(n) && ZigzagEncode(n) < 0x1_0000
  {
  }

  /** Only the low 32 bits of a word are looked at, and its last bit is the sign. */
  lemma ZigzagOfWord(z: nat)
    ensures ZigzagDecode(z) == ZigzagDecode(z % 0x1_0000_0000)
    ensures z < 0x1_0000_0000 ==> if ZigzagDecode(z) >= 0 then z == 2 * ZigzagDecode(z) else z == -2 * ZigzagDecode(z) - 1
  {
  }

  /** What the delta encoder transmits for `values` after `previous`. */
  function Differences(previous: int, values: seq<int>): (d: seq<int>)
    ensures |d| == |values|
    decreases |values|
  {
    if values == [] then [] else [AsI64(values[0] - previous)] + Differences(values[0], values[1..])
  }

  /** What the delta decoder makes of transmitted differences: each passes through zigzag before it is added. */
  function RunningSums(previous: int, differences: seq<int>): (sums: seq<int>)
    ensures |sums| == |differences|
    decreases |differences|
  {
    if differences == [] then []
    else
      var here := AsI64(previous + AsI32(differences[0]));
      [here] + RunningSums(here, differences[1..])
  }

  predicate StepFits(previous: int, value: int) {
    InI32(AsI64(value - previous))
  }

  predicate StepsFitI32(previous: int, values: seq<int>)
    decreases |values|
  {
    values == [] || (StepFits(previous, values[0]) && StepsFitI32(values[0], values[1..]))
  }

  lemma {:induction false} SumsAreWords(previous: int, differences: seq<int>)
    ensures forall k :: 0 <= k < |differences| ==> InI64(RunningSums(previous, differences)[k])
    decreases |differences|
  {
    if differences != [] {
      var here := AsI64(previous + AsI32(differences[0]));
      SumsAreWords(here, differences[1..]);
    }
  }

  /** Equal low 32 bits. */
  predicate Congruent(a: int, b: int) {
    (a - b) % 0x1_0000_0000 == 0
  }

  lemma CongruentSum(a: int, b: int, c: int, d: int)
    requires Congruent(a, b) && Congruent(c, d)
    ensures Congruent(a + c, b + d) && Congruent(a - c, b - d)
  {
  }

  lemma MultipleIsCongruent(a: int, b: int, k: int)
    requires a - b == 0x1_0000_0000 * k
    ensures Congruent(a, b)
  {
  }

  lemma WrapsAreCongruent(n: int)
    ensures Congruent(AsI32(n), n) && Congruent(AsI64(n), n)
  {
    assert Congruent(AsI32(n), n) by {
      MultipleIsCongruent(AsI32(n), n, -((n + 0x8000_0000) / 0x1_0000_0000));
    }
    assert Congruent(AsI64(n), n) by {
      MultipleIsCongruent(AsI64(n), n, -0x1_0000_0000 * ((n + 0x8000_0000_0000_0000) / 0x1_0000_0000_0000_0000));
    }
  }

  lemma WrapCongruent(before: int, exact: int, value: int)
    requires Congruent(before, exact)
    ensures Congruent(AsI64(before + AsI32(AsI64(value - exact))), value)
  {
    hide AsI32, AsI64;
    var step := AsI64(value - exact);
    WrapsAreCongruent(value - exact);
    WrapsAreCongruent(step);
    WrapsAreCongruent(before + AsI32(step));
    CongruentSum(AsI32(step), step, step, value - exact);
    CongruentSum(before, exact, AsI32(step), value - exact);
    CongruentSum(AsI64(before + AsI32(step)), before + AsI32(step), before + AsI32(step), value);
  }

  /** Delta coding loses at most multiples of 2^32, whatever the numbers are. */
  lemma {:induction false} DeltasCongruent(before: int, exact: int, values: seq<int>)
    requires Congruent(before, exact)
    ensures var got := RunningSums(before, Differences(exact, values));
            forall i :: 0 <= i < |values| ==> Congruent(got[i], values[i])
    decreases |values|
  {
    if values != [] {
      WrapCongruent(before, exact, values[0]);
      var here := AsI64(before + AsI32(AsI64(values[0] - exact)));
      DeltasCongruent(here, values[0], values[1..]);
      var got := RunningSums(before, Differences(exact, values));
      forall i | 0 <= i < |values| ensures Congruent(got[i], values[i]) {
        assert i > 0 ==> got[i] == RunningSums(here, Differences(values[0], values[1..]))[i - 1] && values[i] == values[1..][i - 1];
      }
    }
  }

  /** The whole list of 64-bit numbers survives if and only if every step, as a wrapped 64-bit difference, fits in 32 bits. */
  lemma {:induction false} DeltasExact(previous: int, values: seq<int>)
    requires InI64(previous) && forall i :: 0 <= i < |values| ==> InI64(values[i])
    ensures RunningSums(previous, Differences(previous, values)) == values <==> StepsFitI32(previous, values)
    decreases |values|
  {
    if values != [] {
      var step := AsI64(values[0] - previous);
      var here := AsI64(previous + AsI32(step));
      var rest := RunningSums(here, Differences(values[0], values[1..]));
      assert RunningSums(previous, Differences(previous, values)) == [here] + rest;
      assert [values[0]] + values[1..] == values;
      assert ([here] + rest)[0] == here && ([here] + rest)[1..] == rest;
      assert here == values[0] <==> StepFits(previous, values[0]) by {
        FirstStep(previous, values[0]);
      }
      DeltasExact(values[0], values[1..]);
    }
  }

  lemma FirstStep(previous: int, value: int)
    requires InI64(previous) && InI64(value)
    ensures AsI64(previous + AsI32(AsI64(value - previous))) == value <==> StepFits(previous, value)
  {
    var step := AsI64(value - previous);
    assert AsI64(previous + step) == value;
    if !InI32(step) {
      assert AsI32(step) != step && -0x1_0000_0000_0000_0000 < AsI32(step) - step < 0x1_0000_0000_0000_0000;
    }
  }

  /** A first value of 2^31 comes back as -2^31. */
  lemma LargeStepIsLost()
    ensures !StepsFitI32(0, [0x8000_0000]) && RunningSums(0, Differences(0, [0x8000_0000])) == [-0x8000_0000]
  {
    assert [0x8000_0000][1..] == [];
    assert Differences(0, [0x8000_0000]) == [0x8000_0000] + [];
    assert RunningSums(-0x8000_0000, []) == [];
    assert RunningSums(0, [0x8000_0000]) == [-0x8000_0000] + [];
  }
}
