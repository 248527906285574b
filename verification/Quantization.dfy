/**
 * Quantized numbers with error feedback, in exact arithmetic: one residual per connection and field
 * (`rust/src/packet.rs`), and one per connection (`py/src/sonic_ws/packets.py`).
 */
module Quantization {
  import opened Primitives
  import opened Integers

  datatype Quantized = Quantized(scale: real, trackError: bool)

  datatype ValueRange = ValueRange(min: Option<real>, max: Option<real>)

  /** What a definition says about its numbers; a builder only accepts positive scales. */
  datatype Config = Config(quantized: Option<Quantized>, range: ValueRange) {
    ghost predicate Valid() {
      quantized.Some? ==> quantized.value.scale > 0.0
    }

    predicate OutOfRange(logical: real) {
      (range.min.Some? && logical < range.min.value) || (range.max.Some? && logical > range.max.value)
    }

    /** The early return: nothing to do for plain numbers. */
    predicate Plain() {
      quantized.None? && range.min.None? && range.max.None?
    }
  }

  datatype Number = Whole(i: int) | Fractional(d: real)

  function AsReal(n: Number): real {
    match n case Whole(i) => i as real case Fractional(d) => d
  }

  /** `f64::round`: halves away from zero. */
  function Round(x: real): int {
    if x >= 0.0 then (x + 0.5).Floor else -((-x + 0.5).Floor)
  }

  /** `rounded as i64` */
  function Saturate(n: int): (r: int)
    ensures InI64(r) && (InI64(n) ==> r == n)
  {
    if n < -0x8000_0000_0000_0000 then -0x8000_0000_0000_0000 else if n > 0x7FFF_FFFF_FFFF_FFFF then 0x7FFF_FFFF_FFFF_FFFF else n
  }

  lemma RoundIsNear(x: real)
    ensures -0.5 <= x - Round(x) as real <= 0.5
  {
  }

  /** Rounding a multiple plus the residual: the number to send, and what it leaves over. */
  function Quantize(q: Quantized, logical: real, residual: real): (int, real) {
    var scaled := logical * q.scale + if q.trackError then residual else 0.0;
    (Round(scaled), if q.trackError then scaled - Round(scaled) as real else residual)
  }

  /** The sending loop from field `i` on: the outcome, and the residuals, which an error leaves where they are. */
  function SendFrom(cfg: Config, errors: seq<real>, values: seq<Number>, i: nat): (r: (Result<seq<Number>>, seq<real>))
    requires i <= |values| <= |errors|
    ensures |r.1| == |errors| && (r.0.Ok? ==> |r.0.value| == |values| - i)
    ensures r.0.Ok? && cfg.quantized.Some? ==> forall k :: 0 <= k < |r.0.value| ==> r.0.value[k].Whole? && InI64(r.0.value[k].i)
    decreases |values| - i
  {
    if i == |values| then (Ok([]), errors)
    else
      var logical := AsReal(values[i]);
      if cfg.OutOfRange(logical) then (Err(InvalidData), errors)
      else match cfg.quantized
        case None =>
          var rest := SendFrom(cfg, errors, values, i + 1);
          (Prepend([values[i]], rest.0), rest.1)
        case Some(q) =>
          var (wire, left) := Quantize(q, logical, errors[i]);
          var rest := SendFrom(cfg, errors[i := left], values, i + 1);
          (Prepend([Whole(Saturate(wire))], rest.0), rest.1)
  }

  /** The residuals of a connection, long enough for `n` fields. */
  function Residuals(errors: map<nat, seq<real>>, connection: nat, n: nat): (r: seq<real>)
    ensures |r| >= n
  {
    var known := if connection in errors then errors[connection] else [];
    if |known| < n then known + seq(n - |known|, i => 0.0) else known
  }

  /** `transform_numbers` when sending. */
  function Send(cfg: Config, errors: map<nat, seq<real>>, connection: nat, values: seq<Number>): (Result<seq<Number>>, map<nat, seq<real>>) {
    if cfg.Plain() then (Ok(values), errors)
    else
      var r := SendFrom(cfg, Residuals(errors, connection, |values|), values, 0);
      (r.0, errors[connection := r.1])
  }

  /** `transform_numbers` when receiving one value. */
  function ReceiveOne(cfg: Config, value: Number): Result<Number>
    requires cfg.Valid()
  {
    var logical := AsReal(value) / if cfg.quantized.Some? then cfg.quantized.value.scale else 1.0;
    if cfg.OutOfRange(logical) then Err(InvalidData)
    else Ok(if cfg.quantized.Some? then Fractional(logical) else value)
  }

  function ReceiveAll(cfg: Config, values: seq<Number>): (r: Result<seq<Number>>)
    requires cfg.Valid()
    ensures r.Ok? ==> |r.value| == |values|
  {
    if values == [] then Ok([])
    else
      var first :- ReceiveOne(cfg, values[0]);
      Prepend([first], ReceiveAll(cfg, values[1..]))
  }

  /** `transform_numbers` when receiving: it also makes room for residuals, under connection 0. */
  function Receive(cfg: Config, errors: map<nat, seq<real>>, values: seq<Number>): (Result<seq<Number>>, map<nat, seq<real>>)
    requires cfg.Valid()
  {
    if cfg.Plain() then (Ok(values), errors)
    else (ReceiveAll(cfg, values), errors[0 := Residuals(errors, 0, |values|)])
  }

  /** The room is zero. */
  lemma ReceivingLeavesResiduals(cfg: Config, errors: map<nat, seq<real>>, values: seq<Number>, c: nat, f: nat)
    requires cfg.Valid()
    ensures ResidualOf(Receive(cfg, errors, values).1, c, f) == ResidualOf(errors, c, f)
  {
  }

  // ---- runs

  datatype Event = Event(connection: nat, values: seq<Number>)

  /** A run of sends: what went out for each, if all succeeded, and the residuals after it. */
  function Run(cfg: Config, errors: map<nat, seq<real>>, events: seq<Event>): (r: Result<(seq<seq<Number>>, map<nat, seq<real>>)>)
    ensures r.Ok? ==> |r.value.0| == |events|
    decreases |events|
  {
    if events == [] then Ok(([], errors))
    else
      var sent := Send(cfg, errors, events[0].connection, events[0].values);
      var out :- sent.0;
      var rest :- Run(cfg, sent.1, events[1..]);
      Ok(([out] + rest.0, rest.1))
  }

  /** Field `f` of a list of numbers, zero where it is absent. */
  function Field(values: seq<Number>, f: nat): real {
    if f < |values| then AsReal(values[f]) else 0.0
  }

  /** The sum of what the application sent in field `f` on a connection. */
  function SumSent(events: seq<Event>, c: nat, f: nat): real {
    if events == [] then 0.0
    else (if events[0].connection == c then Field(events[0].values, f) else 0.0) + SumSent(events[1..], c, f)
  }

  /** Field `f` of a list of integers, zero where it is absent. */
  function WholeField(numbers: seq<int>, f: nat): real {
    if f < |numbers| then numbers[f] as real else 0.0
  }

  /** The integers that the sending loop rounds to, before they are cast to 64 bits. */
  function RoundedFrom(q: Quantized, errors: seq<real>, values: seq<Number>, i: nat): (r: seq<int>)
    requires i <= |values| <= |errors|
    ensures |r| == |values| - i
    decreases |values| - i
  {
    if i == |values| then []
    else
      var (wire, left) := Quantize(q, AsReal(values[i]), errors[i]);
      [wire] + RoundedFrom(q, errors[i := left], values, i + 1)
  }

  function RoundedOf(q: Quantized, errors: map<nat, seq<real>>, event: Event): (r: seq<int>)
    ensures |r| == |event.values|
  {
    RoundedFrom(q, Residuals(errors, event.connection, |event.values|), event.values, 0)
  }

  /** The integers that each send of a run rounds to. */
  function RoundedRun(cfg: Config, q: Quantized, errors: map<nat, seq<real>>, events: seq<Event>): (r: seq<seq<int>>)
    ensures |r| == |events|
    decreases |events|
  {
    if events == [] then []
    else [RoundedOf(q, errors, events[0])] + RoundedRun(cfg, q, Send(cfg, errors, events[0].connection, events[0].values).1, events[1..])
  }

  /** The sum of integers in field `f` on a connection. */
  function SumWhole(events: seq<Event>, numbers: seq<seq<int>>, c: nat, f: nat): real
    requires |events| == |numbers|
  {
    if events == [] then 0.0
    else (if events[0].connection == c then WholeField(numbers[0], f) else 0.0) + SumWhole(events[1..], numbers[1..], c, f)
  }

  function ResidualOf(errors: map<nat, seq<real>>, c: nat, f: nat): real {
    if c in errors && f < |errors[c]| then errors[c][f] else 0.0
  }

  ghost predicate Small(errors: map<nat, seq<real>>) {
    forall c :: c in errors ==> forall f :: 0 <= f < |errors[c]| ==> -0.5 <= errors[c][f] <= 0.5
  }

  /** No rounded number left the 64-bit range. */
  ghost predicate Unsaturated(q: Quantized, errors: seq<real>, values: seq<Number>, i: nat)
    requires i <= |values| <= |errors|
    decreases |values| - i
  {
    i == |values| ||
    var (wire, left) := Quantize(q, AsReal(values[i]), errors[i]);
    InI64(wire) && Unsaturated(q, errors[i := left], values, i + 1)
  }

  lemma LeftIsSmall(q: Quantized, logical: real, residual: real)
    requires q.trackError
    ensures var (wire, left) := Quantize(q, logical, residual); left == q.scale * logical + residual - wire as real && -0.5 <= left <= 0.5
  {
    RoundIsNear(logical * q.scale + residual);
    assert logical * q.scale == q.scale * logical;
  }

  /** What goes out is what was rounded to, cast to 64 bits; the residuals account for what was rounded to. */
  lemma {:induction false} SendBalances(cfg: Config, q: Quantized, errors: seq<real>, values: seq<Number>, i: nat, f: nat)
    requires cfg.quantized == Some(q) && q.trackError && i <= |values| <= |errors| && SendFrom(cfg, errors, values, i).0.Ok?
    ensures var (r, rounded) := (SendFrom(cfg, errors, values, i), RoundedFrom(q, errors, values, i));
            && (i <= f < |values| ==> r.1[f] == q.scale * AsReal(values[f]) + errors[f] - rounded[f - i] as real)
            && (f < i || |values| <= f < |errors| ==> r.1[f] == errors[f])
    ensures (forall k :: 0 <= k < |errors| ==> -0.5 <= errors[k] <= 0.5) ==>
              forall k :: 0 <= k < |errors| ==> -0.5 <= SendFrom(cfg, errors, values, i).1[k] <= 0.5
    decreases |values| - i
  {
    hide Quantize, Saturate;
    if i < |values| {
      var (wire, left) := Quantize(q, AsReal(values[i]), errors[i]);
      LeftIsSmall(q, AsReal(values[i]), errors[i]);
      SendBalances(cfg, q, errors[i := left], values, i + 1, f);
    }
  }

  function Saturated(rounded: seq<int>): (out: seq<Number>)
    ensures |out| == |rounded| && forall k :: 0 <= k < |out| ==> out[k] == Whole(Saturate(rounded[k]))
  {
    seq(|rounded|, k requires 0 <= k < |rounded| => Whole(Saturate(rounded[k])))
  }

  lemma {:induction false} SendSaturates(cfg: Config, q: Quantized, errors: seq<real>, values: seq<Number>, i: nat)
    requires cfg.quantized == Some(q) && i <= |values| <= |errors| && SendFrom(cfg, errors, values, i).0.Ok?
    ensures SendFrom(cfg, errors, values, i).0.value == Saturated(RoundedFrom(q, errors, values, i))
    decreases |values| - i
  {
    hide Quantize, Saturate;
    if i < |values| {
      var (wire, left) := Quantize(q, AsReal(values[i]), errors[i]);
      var later := errors[i := left];
      SendSaturates(cfg, q, later, values, i + 1);
      assert SendFrom(cfg, errors, values, i).0.value == [Whole(Saturate(wire))] + SendFrom(cfg, later, values, i + 1).0.value;
      assert Saturated([wire] + RoundedFrom(q, later, values, i + 1)) == [Whole(Saturate(wire))] + Saturated(RoundedFrom(q, later, values, i + 1));
    }
  }

  /** The residuals a send starts from are those of the connection, with zeros for new fields. */
  lemma KnownResiduals(errors: map<nat, seq<real>>, c: nat, n: nat, f: nat)
    requires Small(errors)
    ensures var known := Residuals(errors, c, n);
            && (forall k :: 0 <= k < |known| ==> -0.5 <= known[k] <= 0.5)
            && (if f < |known| then known[f] else 0.0) == ResidualOf(errors, c, f)
  {
  }

  lemma SendStep(cfg: Config, q: Quantized, errors: map<nat, seq<real>>, event: Event, c: nat, f: nat)
    requires cfg.quantized == Some(q) && q.trackError && Small(errors)
    requires Send(cfg, errors, event.connection, event.values).0.Ok?
    ensures var sent := Send(cfg, errors, event.connection, event.values);
            && Small(sent.1)
            && (c != event.connection ==> ResidualOf(sent.1, c, f) == ResidualOf(errors, c, f))
            && (c == event.connection ==>
                  ResidualOf(sent.1, c, f) == q.scale * Field(event.values, f) + ResidualOf(errors, c, f) - WholeField(RoundedOf(q, errors, event), f))
  {
    hide SendFrom, RoundedFrom, Residuals;
    var known := Residuals(errors, event.connection, |event.values|);
    KnownResiduals(errors, event.connection, |event.values|, f);
    SendBalances(cfg, q, known, event.values, 0, f);
  }

  /** The books balance over every run of successful sends: what was sent, scaled, less what it was rounded to, is in the residual. */
  lemma {:induction false} RunBalances(cfg: Config, q: Quantized, errors: map<nat, seq<real>>, events: seq<Event>, c: nat, f: nat)
    requires cfg.quantized == Some(q) && q.trackError && Small(errors) && Run(cfg, errors, events).Ok?
    ensures var (outs, after) := Run(cfg, errors, events).value;
            Small(after) &&
            ResidualOf(after, c, f) == q.scale * SumSent(events, c, f) + ResidualOf(errors, c, f)
                                      - SumWhole(events, RoundedRun(cfg, q, errors, events), c, f)
    decreases |events|
  {
    hide Send, Field, WholeField, RoundedOf, ResidualOf, Small;
    if events == [] {
      assert q.scale * 0.0 == 0.0;
    } else {
      SendStep(cfg, q, errors, events[0], c, f);
      RunBalances(cfg, q, Send(cfg, errors, events[0].connection, events[0].values).1, events[1..], c, f);
      assert RoundedRun(cfg, q, errors, events)[1..] == RoundedRun(cfg, q, Send(cfg, errors, events[0].connection, events[0].values).1, events[1..]);
      Distribute(q.scale, if events[0].connection == c then Field(events[0].values, f) else 0.0, SumSent(events[1..], c, f));
      assert q.scale * 0.0 == 0.0;
    }
  }

  lemma Distribute(scale: real, a: real, b: real)
    ensures scale * (a + b) == scale * a + scale * b
    ensures scale * (a - b) == scale * a - scale * b
  {
  }

  lemma ScaledOrder(scale: real, x: real, y: real)
    requires scale > 0.0
    ensures x <= y <==> scale * x <= scale * y
  {
    if x <= y {
      assert scale * (y - x) >= 0.0;
    } else {
      assert scale * (x - y) > 0.0;
    }
  }

  lemma BoundByScale(scale: real, difference: real)
    requires scale > 0.0 && -0.5 <= scale * difference <= 0.5
    ensures -1.0 / (2.0 * scale) <= difference <= 1.0 / (2.0 * scale)
  {
    var bound := 1.0 / (2.0 * scale);
    assert scale * bound == 0.5;
    assert scale * -bound == -0.5;
    assert -1.0 / (2.0 * scale) == -bound;
    ScaledOrder(scale, difference, bound);
    ScaledOrder(scale, -bound, difference);
  }

  lemma SmallResidual(errors: map<nat, seq<real>>, c: nat, f: nat)
    requires Small(errors)
    ensures -0.5 <= ResidualOf(errors, c, f) <= 0.5
  {
  }

  /** Sends on one connection leave the residuals of all others alone, whether they succeed or not. */
  lemma OthersUntouched(cfg: Config, errors: map<nat, seq<real>>, connection: nat, values: seq<Number>, other: nat)
    requires other != connection
    ensures var after := Send(cfg, errors, connection, values).1;
            (other in after <==> other in errors) && (other in errors ==> after[other] == errors[other])
  {
  }

  /** Field `f` balances: its residual changes by what was sent, scaled, less what went out. */
  ghost predicate Balanced(q: Quantized, before: seq<real>, values: seq<Number>, i: nat, out: seq<Number>, after: seq<real>, f: nat)
    requires i <= f < |values| <= |before| == |after| && |out| == |values| - i
  {
    after[f] == q.scale * AsReal(values[f]) + before[f] - AsReal(out[f - i])
  }

  lemma {:induction false} EarlierFieldsStay(cfg: Config, errors: seq<real>, values: seq<Number>, i: nat, f: nat)
    requires f < i <= |values| <= |errors|
    ensures SendFrom(cfg, errors, values, i).1[f] == errors[f]
    decreases |values| - i
  {
    if i < |values| {
      if cfg.quantized.Some? {
        EarlierFieldsStay(cfg, errors[i := Quantize(cfg.quantized.value, AsReal(values[i]), errors[i]).1], values, i + 1, f);
      } else {
        EarlierFieldsStay(cfg, errors, values, i + 1, f);
      }
    }
  }

  lemma FirstFieldBalances(cfg: Config, q: Quantized, errors: seq<real>, values: seq<Number>, i: nat)
    requires cfg.quantized == Some(q) && q.trackError && i < |values| <= |errors| && SendFrom(cfg, errors, values, i).0.Ok?
    ensures Balanced(q, errors, values, i, SendFrom(cfg, errors, values, i).0.value, SendFrom(cfg, errors, values, i).1, i)
       <==> InI64(Quantize(q, AsReal(values[i]), errors[i]).0)
  {
    hide SendFrom, Balanced, Round, Saturate;
    var (wire, left) := Quantize(q, AsReal(values[i]), errors[i]);
    FirstField(cfg, q, errors, values, i);
    assert left == AsReal(values[i]) * q.scale + errors[i] - wire as real;
    hide *;
    LeftOver(q.scale, AsReal(values[i]), errors[i], wire);
    BalanceOfFirst(q, errors, values, i, SendFrom(cfg, errors, values, i).0.value, SendFrom(cfg, errors, values, i).1, wire, left);
  }

  lemma FirstField(cfg: Config, q: Quantized, errors: seq<real>, values: seq<Number>, i: nat)
    requires cfg.quantized == Some(q) && q.trackError && i < |values| <= |errors| && SendFrom(cfg, errors, values, i).0.Ok?
    ensures var (wire, left) := Quantize(q, AsReal(values[i]), errors[i]);
            && SendFrom(cfg, errors, values, i).0.value[0] == Whole(Saturate(wire))
            && SendFrom(cfg, errors, values, i).1[i] == left
  {
    hide Quantize, Saturate, Prepend, AsReal;
    var (wire, left) := Quantize(q, AsReal(values[i]), errors[i]);
    EarlierFieldsStay(cfg, errors[i := left], values, i + 1, i);
    FirstOfPrepended(Whole(Saturate(wire)), SendFrom(cfg, errors[i := left], values, i + 1).0);
  }

  lemma BalanceOfFirst(q: Quantized, errors: seq<real>, values: seq<Number>, i: nat, out: seq<Number>, after: seq<real>, wire: int, left: real)
    requires i < |values| <= |errors| == |after| && |out| == |values| - i && out[0] == Whole(Saturate(wire)) && after[i] == left
    ensures Balanced(q, errors, values, i, out, after, i) <==> left == q.scale * AsReal(values[i]) + errors[i] - Saturate(wire) as real
  {
  }

  lemma FirstOfPrepended(first: Number, rest: Result<seq<Number>>)
    ensures Prepend([first], rest).Ok? ==> Prepend([first], rest).value[0] == first
  {
  }

  lemma LeftOver(scale: real, logical: real, residual: real, wire: int)
    ensures logical * scale + residual - wire as real == scale * logical + residual - Saturate(wire) as real <==> InI64(wire)
  {
    var scaled := logical * scale + residual;
    assert scaled - wire as real == scaled - Saturate(wire) as real <==> wire == Saturate(wire);
  }

  /** Saturation is exactly where the books stop balancing: the residual is that of the exact number, the wire is not. */
  lemma {:induction false} BalancesIffUnsaturated(cfg: Config, q: Quantized, errors: seq<real>, values: seq<Number>, i: nat)
    requires cfg.quantized == Some(q) && q.trackError && i <= |values| <= |errors| && SendFrom(cfg, errors, values, i).0.Ok?
    ensures var (out, after) := SendFrom(cfg, errors, values, i);
            Unsaturated(q, errors, values, i) <==> forall f :: i <= f < |values| ==> Balanced(q, errors, values, i, out.value, after, f)
    decreases |values| - i
  {
    hide Balanced, Quantize;
    if i < |values| {
      var (wire, left) := Quantize(q, AsReal(values[i]), errors[i]);
      var (out, after) := SendFrom(cfg, errors, values, i);
      var rest := SendFrom(cfg, errors[i := left], values, i + 1).0.value;
      FirstFieldBalances(cfg, q, errors, values, i);
      BalancesIffUnsaturated(cfg, q, errors[i := left], values, i + 1);
      var later, next := errors[i := left], i + 1;
      assert SendFrom(cfg, errors[i := left], values, i + 1).1 == after;
      if forall f :: next <= f < |values| ==> Balanced(q, later, values, next, rest, after, f) {
        forall f | i < f < |values| ensures Balanced(q, errors, values, i, out.value, after, f) {
          LaterField(q, errors, left, values, i, out.value, rest, after, f);
        }
      }
      if forall f :: i < f < |values| ==> Balanced(q, errors, values, i, out.value, after, f) {
        forall f | next <= f < |values| ensures Balanced(q, later, values, next, rest, after, f) {
          LaterField(q, errors, left, values, i, out.value, rest, after, f);
        }
      }
    }
  }

  lemma LaterField(q: Quantized, errors: seq<real>, left: real, values: seq<Number>, i: nat, out: seq<Number>, rest: seq<Number>,
                   after: seq<real>, f: nat)
    requires i < f < |values| <= |errors| == |after| && |out| == |values| - i && |rest| == |out| - 1 && out[1..] == rest
    ensures Balanced(q, errors, values, i, out, after, f) <==> Balanced(q, errors[i := left], values, i + 1, rest, after, f)
  {
    assert out[f - i] == rest[f - i - 1];
  }

  // ---- Python: one residual per connection, shared by all fields

  /** `math.floor(adjusted + 0.5)` */
  function RoundHalfUp(x: real): int {
    (x + 0.5).Floor
  }

  function QuantizeShared(q: Quantized, logical: real, residual: real): (int, real) {
    var adjusted := logical * q.scale + if q.trackError then residual else 0.0;
    (RoundHalfUp(adjusted), if q.trackError then adjusted - RoundHalfUp(adjusted) as real else residual)
  }

  function SendShared(cfg: Config, residual: real, values: seq<real>): (r: (Result<seq<int>>, real))
    requires cfg.quantized.Some?
    decreases |values|
  {
    if values == [] then (Ok([]), residual)
    else if cfg.OutOfRange(values[0]) then (Err(InvalidData), residual)
    else
      var (wire, left) := QuantizeShared(cfg.quantized.value, values[0], residual);
      var rest := SendShared(cfg, left, values[1..]);
      (Prepend([wire], rest.0), rest.1)
  }

  function Total(values: seq<real>): real {
    if values == [] then 0.0 else values[0] + Total(values[1..])
  }

  function TotalWire(wires: seq<int>): real {
    if wires == [] then 0.0 else wires[0] as real + TotalWire(wires[1..])
  }

  lemma {:induction false} SharedBalances(cfg: Config, residual: real, values: seq<real>)
    requires cfg.quantized.Some? && cfg.quantized.value.trackError && SendShared(cfg, residual, values).0.Ok?
    ensures var r := SendShared(cfg, residual, values);
            r.1 == cfg.quantized.value.scale * Total(values) + residual - TotalWire(r.0.value)
    ensures -0.5 <= residual <= 0.5 ==> -0.5 <= SendShared(cfg, residual, values).1 <= 0.5
    decreases |values|
  {
    if values != [] {
      var q := cfg.quantized.value;
      var (wire, left) := QuantizeShared(q, values[0], residual);
      SharedBalances(cfg, left, values[1..]);
      var rest := SendShared(cfg, left, values[1..]).0.value;
      assert ([wire] + rest)[1..] == rest;
      Distribute(q.scale, values[0], Total(values[1..]));
    }
  }

  datatype SharedEvent = SharedEvent(connection: nat, values: seq<real>)

  function SharedResidual(errors: map<nat, real>, c: nat): real {
    if c in errors then errors[c] else 0.0
  }

  function RunShared(cfg: Config, errors: map<nat, real>, events: seq<SharedEvent>): (r: Result<(seq<seq<int>>, map<nat, real>)>)
    requires cfg.quantized.Some?
    ensures r.Ok? ==> |r.value.0| == |events|
    decreases |events|
  {
    if events == [] then Ok(([], errors))
    else
      var sent := SendShared(cfg, SharedResidual(errors, events[0].connection), events[0].values);
      var out :- sent.0;
      var rest :- RunShared(cfg, errors[events[0].connection := sent.1], events[1..]);
      Ok(([out] + rest.0, rest.1))
  }

  function SharedSent(events: seq<SharedEvent>, c: nat): real {
    if events == [] then 0.0 else (if events[0].connection == c then Total(events[0].values) else 0.0) + SharedSent(events[1..], c)
  }

  function SharedWire(events: seq<SharedEvent>, outs: seq<seq<int>>, c: nat): real
    requires |events| == |outs|
  {
    if events == [] then 0.0
    else (if events[0].connection == c then TotalWire(outs[0]) else 0.0) + SharedWire(events[1..], outs[1..], c)
  }

  ghost predicate SmallShared(errors: map<nat, real>) {
    forall k :: k in errors ==> -0.5 <= errors[k] <= 0.5
  }

  lemma SharedStep(cfg: Config, errors: map<nat, real>, e: SharedEvent, c: nat)
    requires cfg.quantized.Some? && cfg.quantized.value.trackError && SmallShared(errors)
    requires SendShared(cfg, SharedResidual(errors, e.connection), e.values).0.Ok?
    ensures var sent := SendShared(cfg, SharedResidual(errors, e.connection), e.values);
            var next := errors[e.connection := sent.1];
            && SmallShared(next)
            && SharedResidual(next, c) ==
               if c == e.connection then cfg.quantized.value.scale * Total(e.values) + SharedResidual(errors, c) - TotalWire(sent.0.value)
               else SharedResidual(errors, c)
  {
    hide SendShared, Total, TotalWire;
    SharedBalances(cfg, SharedResidual(errors, e.connection), e.values);
  }

  lemma {:induction false} RunSharedBalances(cfg: Config, errors: map<nat, real>, events: seq<SharedEvent>, c: nat)
    requires cfg.quantized.Some? && cfg.quantized.value.trackError && RunShared(cfg, errors, events).Ok? && SmallShared(errors)
    ensures var (outs, after) := RunShared(cfg, errors, events).value;
            && SharedResidual(after, c) == cfg.quantized.value.scale * SharedSent(events, c) + SharedResidual(errors, c) - SharedWire(events, outs, c)
            && SmallShared(after)
    decreases |events|
  {
    hide SendShared, Total, TotalWire, SmallShared, SharedResidual;
    if events == [] {
      assert cfg.quantized.value.scale * 0.0 == 0.0;
    } else {
      var q, e := cfg.quantized.value, events[0];
      var sent := SendShared(cfg, SharedResidual(errors, e.connection), e.values);
      var next := errors[e.connection := sent.1];
      SharedStep(cfg, errors, e, c);
      RunSharedBalances(cfg, next, events[1..], c);
      var outs := RunShared(cfg, errors, events).value.0;
      assert outs[1..] == RunShared(cfg, next, events[1..]).value.0;
      Distribute(q.scale, if e.connection == c then Total(e.values) else 0.0, SharedSent(events[1..], c));
      assert q.scale * 0.0 == 0.0;
    }
  }

  // ---- the object

  class Packet {
    const cfg: Config
    var quantizationError: map<nat, seq<real>>

    constructor (cfg: Config)
      ensures this.cfg == cfg && quantizationError == map[]
    {
      this.cfg, quantizationError := cfg, map[];
    }

    /** `transform_numbers(values, true, connection)`: residuals advance field by field, also before an error. */
    method TransformForSending(values: seq<Number>, connection: nat) returns (r: Result<seq<Number>>)
      modifies this
      ensures (r, quantizationError) == Send(cfg, old(quantizationError), connection, values)
    {
      hide Quantize;
      if cfg.Plain() {
        return Ok(values);
      }
      var errors := Residuals(quantizationError, connection, |values|);
      ghost var whole := SendFrom(cfg, errors, values, 0);
      var out: seq<Number> := [];
      assert Prepend([], whole.0) == whole.0 by { if whole.0.Ok? { assert [] + whole.0.value == whole.0.value; } }
      for index := 0 to |values|
        invariant |errors| >= |values|
        invariant var rest := SendFrom(cfg, errors, values, index); whole == (Prepend(out, rest.0), rest.1)
        invariant quantizationError == old(quantizationError)
      {
        var logical := AsReal(values[index]);
        if cfg.OutOfRange(logical) {
          quantizationError := quantizationError[connection := errors];
          return Err(InvalidData);
        }
        var sent := values[index];
        if cfg.quantized.Some? {
          var (wire, left) := Quantize(cfg.quantized.value, logical, errors[index]);
          errors := errors[index := left];
          sent := Whole(Saturate(wire));
        }
        PrependPrepend(out, [sent], SendFrom(cfg, errors, values, index + 1).0);
        out := out + [sent];
      }
      quantizationError := quantizationError[connection := errors];
      assert out + [] == out;
      return Ok(out);
    }

    /** `transform_numbers(values, false, 0)` */
    method TransformReceived(values: seq<Number>) returns (r: Result<seq<Number>>)
      requires cfg.Valid()
      modifies this
      ensures (r, quantizationError) == Receive(cfg, old(quantizationError), values)
    {
      hide ReceiveOne;
      if cfg.Plain() {
        return Ok(values);
      }
      quantizationError := quantizationError[0 := Residuals(quantizationError, 0, |values|)];
      ghost var whole := ReceiveAll(cfg, values);
      var out: seq<Number> := [];
      assert Prepend([], whole) == whole by { if whole.Ok? { assert [] + whole.value == whole.value; } }
      assert values[0..] == values;
      for index := 0 to |values|
        invariant whole == Prepend(out, ReceiveAll(cfg, values[index..]))
        invariant quantizationError == old(quantizationError)[0 := Residuals(old(quantizationError), 0, |values|)]
      {
        assert values[index..][1..] == values[index + 1..];
        var one :- ReceiveOne(cfg, values[index]);
        PrependPrepend(out, [one], ReceiveAll(cfg, values[index + 1..]));
        out := out + [one];
      }
      assert out + [] == out;
      return Ok(out);
    }
  }
}
