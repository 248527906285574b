/** What quantized sends and receipts do, said of numbers and residuals alone. */
module QuantizationLaws {
  import opened Primitives
  import opened Quantization

  // ---- the statement

  /** The integer nearest to `x`, and of two at the same distance the one farther from zero. */
  predicate Nearest(x: real, n: int) {
    -0.5 <= x - n as real <= 0.5 && (x - n as real == 0.5 ==> x < 0.0) && (x - n as real == -0.5 ==> x > 0.0)
  }

  /** The integer nearest to `x`, and of two at the same distance the upper one. */
  predicate NearestUp(x: real, n: int) {
    -0.5 <= x - n as real < 0.5
  }

  /** The 64-bit number that is closest to `n`. */
  predicate Clamped(n: int, wire: int) {
    && -0x8000_0000_0000_0000 <= wire < 0x8000_0000_0000_0000
    && (-0x8000_0000_0000_0000 <= n < 0x8000_0000_0000_0000 ==> wire == n)
    && (n >= 0x8000_0000_0000_0000 ==> wire == 0x8000_0000_0000_0000 - 1)
    && (n < -0x8000_0000_0000_0000 ==> wire == -0x8000_0000_0000_0000)
  }

  predicate InsideRange(range: ValueRange, x: real) {
    (range.min.Some? ==> range.min.value <= x) && (range.max.Some? ==> x <= range.max.value)
  }

  /** The steps that a value makes, with the residual if it is counted. */
  function Counted(q: Quantized, value: real, residual: real): real {
    q.scale * value + if q.trackError then residual else 0.0
  }

  /** The steps of field `f` of a send. */
  function Steps(q: Quantized, errors: map<nat, seq<real>>, connection: nat, values: seq<Number>, f: nat): real
    requires f < |values|
  {
    Counted(q, AsReal(values[f]), ResidualOf(errors, connection, f))
  }

  /** The integers that a send rounds to. */
  predicate RoundsTo(q: Quantized, errors: map<nat, seq<real>>, event: Event, numbers: seq<int>) {
    && |numbers| == |event.values|
    && forall f :: 0 <= f < |numbers| ==> Nearest(Steps(q, errors, event.connection, event.values, f), numbers[f])
  }

  /** Residuals after a send that got through the first `count` fields; those of other fields and connections stay. */
  ghost predicate Advances(q: Quantized, errors: map<nat, seq<real>>, event: Event, numbers: seq<int>, count: nat, after: map<nat, seq<real>>)
    requires count <= |event.values| <= |numbers|
  {
    forall c: nat, f: nat :: ResidualOf(after, c, f) ==
                   if q.trackError && c == event.connection && f < count
                   then Steps(q, errors, c, event.values, f) - numbers[f] as real
                   else ResidualOf(errors, c, f)
  }

  ghost predicate FirstOutside(range: ValueRange, values: seq<Number>, count: nat) {
    count < |values| && !InsideRange(range, AsReal(values[count])) && forall k :: 0 <= k < count ==> InsideRange(range, AsReal(values[k]))
  }

  // ---- rounding

  lemma RoundIsNearest(x: real, n: int)
    ensures Nearest(x, n) <==> n == Round(x)
  {
  }

  lemma RoundHalfUpIsNearest(x: real, n: int)
    ensures NearestUp(x, n) <==> n == RoundHalfUp(x)
  {
  }

  lemma SaturateClamps(n: int, wire: int)
    ensures Clamped(n, wire) <==> wire == Saturate(n)
  {
  }

  // ---- one send

  lemma QuantizeIsNearest(q: Quantized, value: real, residual: real)
    ensures Quantize(q, value, residual).0 == Round(Counted(q, value, residual))
    ensures Quantize(q, value, residual).1 ==
            if q.trackError then Counted(q, value, residual) - Round(Counted(q, value, residual)) as real else residual
  {
    assert q.scale * value == value * q.scale;
  }

  lemma {:induction false} RoundedAt(cfg: Config, q: Quantized, errors: seq<real>, values: seq<Number>, i: nat, f: nat)
    requires cfg.quantized == Some(q) && i <= f < |values| <= |errors|
    ensures RoundedFrom(q, errors, values, i)[f - i] == Round(Counted(q, AsReal(values[f]), errors[f]))
    decreases |values| - i
  {
    hide Round, Counted, Quantize;
    var (wire, left) := Quantize(q, AsReal(values[i]), errors[i]);
    QuantizeIsNearest(q, AsReal(values[i]), errors[i]);
    if i < f {
      RoundedAt(cfg, q, errors[i := left], values, i + 1, f);
    }
  }

  /** The integers a send rounds to are those nearest to its steps, and no others. */
  lemma RoundedOfIsNearest(cfg: Config, q: Quantized, errors: map<nat, seq<real>>, event: Event, numbers: seq<int>)
    requires cfg.quantized == Some(q)
    ensures RoundsTo(q, errors, event, numbers) <==> numbers == RoundedOf(q, errors, event)
  {
    hide Nearest, RoundedFrom, Residuals, Round, Counted;
    var known, rounded := Residuals(errors, event.connection, |event.values|), RoundedOf(q, errors, event);
    forall f | 0 <= f < |event.values|
      ensures rounded[f] == Round(Steps(q, errors, event.connection, event.values, f))
      ensures forall n :: Nearest(Steps(q, errors, event.connection, event.values, f), n) <==> n == rounded[f]
    {
      RoundedAt(cfg, q, known, event.values, 0, f);
      KnownIs(errors, event.connection, |event.values|, f);
      forall n ensures Nearest(Steps(q, errors, event.connection, event.values, f), n) <==> n == rounded[f] {
        RoundIsNearest(Steps(q, errors, event.connection, event.values, f), n);
      }
    }
    if RoundsTo(q, errors, event, numbers) {
      assert forall f :: 0 <= f < |numbers| ==> numbers[f] == rounded[f];
    }
  }

  lemma KnownIs(errors: map<nat, seq<real>>, c: nat, n: nat, f: nat)
    requires f < |Residuals(errors, c, n)|
    ensures Residuals(errors, c, n)[f] == ResidualOf(errors, c, f)
  {
  }

  /** How far the loop gets, and what it leaves in field `f`. */
  lemma {:induction false} LoopLeaves(cfg: Config, q: Quantized, errors: seq<real>, values: seq<Number>, i: nat, count: nat, f: nat)
    requires cfg.quantized == Some(q) && i <= count <= |values| <= |errors| && f < |errors|
    requires forall k :: i <= k < count ==> InsideRange(cfg.range, AsReal(values[k]))
    requires count < |values| ==> !InsideRange(cfg.range, AsReal(values[count]))
    ensures var r := SendFrom(cfg, errors, values, i);
            && (r.0.Ok? <==> count == |values|) && (r.0.Err? ==> r.0 == Err(InvalidData))
            && r.1[f] == if i <= f < count && q.trackError
                         then Counted(q, AsReal(values[f]), errors[f]) - Round(Counted(q, AsReal(values[f]), errors[f])) as real
                         else errors[f]
    decreases |values| - i
  {
    hide Round, Saturate, Counted, Quantize;
    if i < |values| {
      assert cfg.OutOfRange(AsReal(values[i])) <==> !InsideRange(cfg.range, AsReal(values[i]));
      if i < count {
        var (wire, left) := Quantize(q, AsReal(values[i]), errors[i]);
        QuantizeIsNearest(q, AsReal(values[i]), errors[i]);
        LoopLeaves(cfg, q, errors[i := left], values, i + 1, count, f);
      }
    }
  }

  lemma Leaves(cfg: Config, q: Quantized, errors: map<nat, seq<real>>, event: Event, numbers: seq<int>, count: nat)
    requires cfg.quantized == Some(q) && RoundsTo(q, errors, event, numbers) && count <= |event.values|
    requires forall k :: 0 <= k < count ==> InsideRange(cfg.range, AsReal(event.values[k]))
    requires count < |event.values| ==> !InsideRange(cfg.range, AsReal(event.values[count]))
    ensures Advances(q, errors, event, numbers, count, Send(cfg, errors, event.connection, event.values).1)
    ensures Send(cfg, errors, event.connection, event.values).0.Ok? <==> count == |event.values|
    ensures Send(cfg, errors, event.connection, event.values).0.Err? ==> Send(cfg, errors, event.connection, event.values).0 == Err(InvalidData)
  {
    hide SendFrom, Residuals, Nearest, InsideRange, Round, Counted;
    var values, known := event.values, Residuals(errors, event.connection, |event.values|);
    var after := Send(cfg, errors, event.connection, values).1;
    assert |known| >= |values|;
    if |known| > 0 {
      LoopLeaves(cfg, q, known, values, 0, count, 0);
    } else {
      assert SendFrom(cfg, known, values, 0) == (Ok([]), known) by { NothingSent(cfg, known, values); }
    }
    forall c: nat, f: nat
      ensures ResidualOf(after, c, f) ==
              if q.trackError && c == event.connection && f < count
              then Steps(q, errors, c, values, f) - numbers[f] as real
              else ResidualOf(errors, c, f)
    {
      if c == event.connection {
        KnownOrZero(errors, c, |values|, f);
        if f < |known| {
          LoopLeaves(cfg, q, known, values, 0, count, f);
          if f < |values| {
            RoundIsNearest(Steps(q, errors, c, values, f), numbers[f]);
          }
        }
      }
    }
  }

  lemma NothingSent(cfg: Config, errors: seq<real>, values: seq<Number>)
    requires values == []
    ensures SendFrom(cfg, errors, values, 0) == (Ok([]), errors)
  {
  }

  lemma KnownOrZero(errors: map<nat, seq<real>>, c: nat, n: nat, f: nat)
    ensures var known := Residuals(errors, c, n); (if f < |known| then known[f] else 0.0) == ResidualOf(errors, c, f)
  {
  }

  /**
   * A send of quantized numbers, with and without tracking: it succeeds if and only if every value is in range. Then every
   * field goes out as the nearest integer to its steps, kept within 64 bits, and with tracking leaves over what was
   * rounded away. When a value is out of range, the fields before it have advanced nevertheless.
   */
  lemma SendRounds(cfg: Config, q: Quantized, errors: map<nat, seq<real>>, event: Event, numbers: seq<int>)
    requires cfg.quantized == Some(q) && RoundsTo(q, errors, event, numbers)
    ensures var (out, after) := Send(cfg, errors, event.connection, event.values);
            match out
            case Ok(wires) =>
              && (forall f :: 0 <= f < |event.values| ==> InsideRange(cfg.range, AsReal(event.values[f])))
              && |wires| == |numbers| && (forall f :: 0 <= f < |wires| ==> wires[f].Whole? && Clamped(numbers[f], wires[f].i))
              && Advances(q, errors, event, numbers, |numbers|, after)
            case Err(e) => e == InvalidData && exists count :: FirstOutside(cfg.range, event.values, count) && Advances(q, errors, event, numbers, count, after)
  {
    hide SendFrom, Residuals, Nearest, InsideRange, RoundsTo, Advances, Saturate, Clamped;
    var count := FirstOut(cfg.range, event.values);
    assert |numbers| == |event.values| by { RoundsCount(q, errors, event, numbers); }
    Leaves(cfg, q, errors, event, numbers, count);
    var out := Send(cfg, errors, event.connection, event.values).0;
    if out.Ok? {
      RoundedOfIsNearest(cfg, q, errors, event, numbers);
      SendSaturates(cfg, q, Residuals(errors, event.connection, |event.values|), event.values, 0);
      forall f | 0 <= f < |out.value| ensures out.value[f].Whole? && Clamped(numbers[f], out.value[f].i) {
        SaturateClamps(numbers[f], Saturate(numbers[f]));
      }
    } else {
      assert FirstOutside(cfg.range, event.values, count);
    }
  }

  lemma RoundsCount(q: Quantized, errors: map<nat, seq<real>>, event: Event, numbers: seq<int>)
    requires RoundsTo(q, errors, event, numbers)
    ensures |numbers| == |event.values|
  {
  }

  /** The place of the first value out of range, or the end. */
  function FirstOut(range: ValueRange, values: seq<Number>): (count: nat)
    ensures count <= |values| && forall k :: 0 <= k < count ==> InsideRange(range, AsReal(values[k]))
    ensures count < |values| ==> !InsideRange(range, AsReal(values[count]))
  {
    if values == [] || !InsideRange(range, AsReal(values[0])) then 0
    else
      assert forall k :: 1 <= k < |values| ==> values[k] == values[1..][k - 1];
      FirstOut(range, values[1..]) + 1
  }

  /** Plain numbers go out as they are, in range or not at all, and leave no residual. */
  lemma PlainSend(cfg: Config, errors: map<nat, seq<real>>, event: Event)
    requires cfg.quantized.None?
    ensures var (out, after) := Send(cfg, errors, event.connection, event.values);
            && out == (if forall f :: 0 <= f < |event.values| ==> InsideRange(cfg.range, AsReal(event.values[f])) then Ok(event.values) else Err(InvalidData))
            && forall c: nat, f: nat :: ResidualOf(after, c, f) == ResidualOf(errors, c, f)
  {
    hide Residuals;
    var known := Residuals(errors, event.connection, |event.values|);
    PlainLoop(cfg, known, event.values, 0);
    assert event.values[0..] == event.values;
    forall c: nat, f: nat ensures ResidualOf(Send(cfg, errors, event.connection, event.values).1, c, f) == ResidualOf(errors, c, f) {
      KnownOrZero(errors, c, |event.values|, f);
    }
  }

  lemma {:induction false} PlainLoop(cfg: Config, errors: seq<real>, values: seq<Number>, i: nat)
    requires cfg.quantized.None? && i <= |values| <= |errors|
    ensures SendFrom(cfg, errors, values, i) ==
            ((if forall f :: i <= f < |values| ==> InsideRange(cfg.range, AsReal(values[f])) then Ok(values[i..]) else Err(InvalidData)), errors)
    decreases |values| - i
  {
    if i < |values| {
      assert cfg.OutOfRange(AsReal(values[i])) <==> !InsideRange(cfg.range, AsReal(values[i]));
      PlainLoop(cfg, errors, values, i + 1);
      assert values[i..] == [values[i]] + values[i + 1..];
    }
  }

  // ---- one receipt

  /** Every multiple is in range, and these are the multiples; or one is not. */
  ghost predicate Divides(cfg: Config, values: seq<Number>, r: Result<seq<Number>>) {
    var scale := if cfg.quantized.Some? then cfg.quantized.value.scale else 1.0;
    scale > 0.0 &&
    match r
    case Ok(got) =>
      && |got| == |values|
      && forall f :: 0 <= f < |values| ==>
           && InsideRange(cfg.range, AsReal(values[f]) / scale)
           && got[f] == if cfg.quantized.Some? then Fractional(AsReal(values[f]) / scale) else values[f]
    case Err(e) => e == InvalidData && exists f :: 0 <= f < |values| && !InsideRange(cfg.range, AsReal(values[f]) / scale)
  }

  lemma {:induction false} AllDivide(cfg: Config, values: seq<Number>)
    requires cfg.Valid()
    ensures Divides(cfg, values, ReceiveAll(cfg, values))
  {
    if values != [] {
      AllDivide(cfg, values[1..]);
      var scale := if cfg.quantized.Some? then cfg.quantized.value.scale else 1.0;
      assert cfg.OutOfRange(AsReal(values[0]) / scale) <==> !InsideRange(cfg.range, AsReal(values[0]) / scale);
      if ReceiveOne(cfg, values[0]).Ok? && ReceiveAll(cfg, values[1..]).Err? {
        var f :| 0 <= f < |values[1..]| && !InsideRange(cfg.range, AsReal(values[1..][f]) / scale);
        assert values[f + 1] == values[1..][f];
      }
    }
  }

  /** A receipt succeeds if and only if every multiple is in range, and gives the multiples; plain numbers are multiples of one. */
  lemma ReceiveDivides(cfg: Config, errors: map<nat, seq<real>>, values: seq<Number>)
    requires cfg.Valid()
    ensures Divides(cfg, values, Receive(cfg, errors, values).0)
  {
    if cfg.Plain() {
      assert forall f :: 0 <= f < |values| ==> AsReal(values[f]) / 1.0 == AsReal(values[f]);
    } else {
      AllDivide(cfg, values);
    }
  }

  // ---- Python

  /** One residual runs through the fields of a send; without tracking it is neither counted nor changed. */
  predicate RoundsShared(q: Quantized, residual: real, values: seq<real>, numbers: seq<int>, after: real)
    requires |values| == |numbers|
    decreases |values|
  {
    if values == [] then after == residual
    else
      var steps := Counted(q, values[0], residual);
      && NearestUp(steps, numbers[0])
      && RoundsShared(q, if q.trackError then steps - numbers[0] as real else residual, values[1..], numbers[1..], after)
  }

  /** The fields before the first value out of range were rounded to these numbers, and left this over. */
  predicate RoundsUpTo(cfg: Config, q: Quantized, residual: real, values: seq<real>, numbers: seq<int>, after: real) {
    && |numbers| < |values| && !InsideRange(cfg.range, values[|numbers|])
    && (forall f :: 0 <= f < |numbers| ==> InsideRange(cfg.range, values[f]))
    && RoundsShared(q, residual, values[..|numbers|], numbers, after)
  }

  /**
   * A send succeeds if and only if every value is in range, and rounds each value with what is left over before it; when
   * a value is out of range, the fields before it have advanced.
   */
  lemma {:induction false} SendSharedRounds(cfg: Config, q: Quantized, residual: real, values: seq<real>)
    requires cfg.quantized == Some(q)
    ensures match SendShared(cfg, residual, values)
            case (Ok(out), after) =>
              && (forall f :: 0 <= f < |values| ==> InsideRange(cfg.range, values[f]))
              && |out| == |values| && RoundsShared(q, residual, values, out, after)
            case (Err(e), after) => e == InvalidData && exists numbers :: RoundsUpTo(cfg, q, residual, values, numbers, after)
    decreases |values|
  {
    hide InsideRange, NearestUp;
    if values != [] {
      assert cfg.OutOfRange(values[0]) <==> !InsideRange(cfg.range, values[0]) by { OutIsNotInside(cfg, values[0]); }
      assert forall f :: 1 <= f < |values| ==> values[f] == values[1..][f - 1];
      assert forall f :: 0 <= f < |values[1..]| ==> values[1..][f] == values[f + 1];
      if InsideRange(cfg.range, values[0]) {
        var (wire, left) := QuantizeShared(q, values[0], residual);
        assert values[0] * q.scale == q.scale * values[0];
        RoundHalfUpIsNearest(Counted(q, values[0], residual), wire);
        SendSharedRounds(cfg, q, left, values[1..]);
        var (out, after) := SendShared(cfg, residual, values);
        if out.Ok? {
          assert out.value[1..] == SendShared(cfg, left, values[1..]).0.value;
        } else {
          var rest :| RoundsUpTo(cfg, q, left, values[1..], rest, after);
          OneMoreRounded(cfg, q, residual, values, wire, left, rest, after);
        }
      } else {
        assert RoundsUpTo(cfg, q, residual, values, [], residual);
      }
    }
  }

  lemma OutIsNotInside(cfg: Config, x: real)
    ensures cfg.OutOfRange(x) <==> !InsideRange(cfg.range, x)
  {
  }

  lemma OneMoreRounded(cfg: Config, q: Quantized, residual: real, values: seq<real>, wire: int, left: real, rest: seq<int>, after: real)
    requires values != [] && InsideRange(cfg.range, values[0]) && RoundsUpTo(cfg, q, left, values[1..], rest, after)
    requires NearestUp(Counted(q, values[0], residual), wire)
    requires left == if q.trackError then Counted(q, values[0], residual) - wire as real else residual
    ensures RoundsUpTo(cfg, q, residual, values, [wire] + rest, after)
  {
    hide InsideRange, NearestUp, Counted;
    var numbers := [wire] + rest;
    assert numbers[1..] == rest && values[..|numbers|][1..] == values[1..][..|rest|];
    assert values[|numbers|] == values[1..][|rest|];
    forall f | 0 <= f < |numbers| ensures InsideRange(cfg.range, values[f]) {
      assert f > 0 ==> values[f] == values[1..][f - 1];
    }
  }
}
