/** Rate limits over whole runs: the sliding window of `py/src/sonic_ws/connection.py`, the fixed one of `rust/src/connection.rs`. */
module Rates {

  // ---- sliding window

  /** The `while` loop: drop what is a second old. */
  function DropOld(window: seq<real>, now: real): (r: seq<real>)
    ensures |r| <= |window| && r == window[|window| - |r|..]
    ensures r != [] ==> now - r[0] < 1.0
    ensures forall i :: 0 <= i < |window| - |r| ==> now - window[i] >= 1.0
  {
    if window != [] && now - window[0] >= 1.0 then DropOld(window[1..], now) else window
  }

  /** `_within_rate` with a positive limit: the answer and the new window. */
  function Within(window: seq<real>, limit: nat, now: real): (bool, seq<real>) {
    var recent := DropOld(window, now);
    if |recent| >= limit then (false, recent) else (true, recent + [now])
  }

  /** The times at which calls were accepted, and the window after them. */
  function Accepted(limit: nat, calls: seq<real>): (seq<real>, seq<real>)
    decreases |calls|
  {
    if calls == [] then ([], [])
    else
      var (times, window) := Accepted(limit, calls[..|calls| - 1]);
      var now := calls[|calls| - 1];
      var (ok, next) := Within(window, limit, now);
      (if ok then times + [now] else times, next)
  }

  ghost predicate Monotone(calls: seq<real>) {
    forall i, j :: 0 <= i < j < |calls| ==> calls[i] <= calls[j]
  }

  /** The window holds the youngest accepted times, in order; every one that fell out is a second old by now. */
  ghost predicate Tracks(times: seq<real>, window: seq<real>, now: real) {
    && |window| <= |times| && window == times[|times| - |window|..]
    && (forall i :: 0 <= i < |times| - |window| ==> now - times[i] >= 1.0)
    && (forall i :: 0 <= i < |times| ==> times[i] <= now)
    && Monotone(times)
  }

  /** Any `limit + 1` accepted calls take a second or more. */
  ghost predicate Spaced(times: seq<real>, limit: nat) {
    forall i :: 0 <= i < |times| - limit ==> times[i + limit] - times[i] >= 1.0
  }

  lemma DropTracks(times: seq<real>, window: seq<real>, before: real, now: real)
    requires before <= now && Tracks(times, window, before)
    ensures Tracks(times, DropOld(window, now), now)
  {
    var recent := DropOld(window, now);
    hide DropOld;
    assert recent == times[|times| - |recent|..] by {
      assert recent == window[|window| - |recent|..];
    }
    forall i | 0 <= i < |times| - |recent| ensures now - times[i] >= 1.0 {
      if i >= |times| - |window| {
        assert times[i] == window[i - (|times| - |window|)];
      }
    }
  }

  lemma AcceptKeeps(times: seq<real>, recent: seq<real>, limit: nat, now: real)
    requires limit > 0 && Tracks(times, recent, now) && |recent| < limit && Spaced(times, limit)
    ensures Tracks(times + [now], recent + [now], now) && Spaced(times + [now], limit)
  {
    var all := times + [now];
    assert all[|all| - |recent + [now]|..] == recent + [now];
    forall i | 0 <= i < |all| - limit ensures all[i + limit] - all[i] >= 1.0 {
      if i + limit == |times| {
        assert i < |times| - |recent|;
      }
    }
  }

  /** What a rejection means: in the last second there were `limit` acceptances. */
  lemma RejectMeansBusy(times: seq<real>, window: seq<real>, limit: nat, before: real, now: real)
    requires limit > 0 && before <= now && Tracks(times, window, before) && !Within(window, limit, now).0
    ensures |times| >= limit && forall i :: |times| - limit <= i < |times| ==> now - 1.0 < times[i] <= now
  {
    hide DropOld;
    DropTracks(times, window, before, now);
    var recent := DropOld(window, now);
    assert recent[0] == times[|times| - |recent|];
  }

  /** What every run keeps. */
  ghost predicate Kept(limit: nat, calls: seq<real>, result: (seq<real>, seq<real>)) {
    && Spaced(result.0, limit)
    && if calls == [] then result == ([], []) else Tracks(result.0, result.1, calls[|calls| - 1])
  }

  lemma CallKeeps(limit: nat, earlier: seq<real>, result: (seq<real>, seq<real>), now: real)
    requires limit > 0 && Kept(limit, earlier, result) && (earlier != [] ==> earlier[|earlier| - 1] <= now)
    ensures var (ok, next) := Within(result.1, limit, now);
            Kept(limit, earlier + [now], (if ok then result.0 + [now] else result.0, next))
  {
    hide DropOld;
    if earlier == [] {
      NothingTracked(now);
      DropTracks([], [], now, now);
    } else {
      DropTracks(result.0, result.1, earlier[|earlier| - 1], now);
    }
    if Within(result.1, limit, now).0 {
      hide Tracks, Spaced;
      AcceptKeeps(result.0, DropOld(result.1, now), limit, now);
    }
  }

  lemma {:induction false} RunKeeps(limit: nat, calls: seq<real>)
    requires limit > 0 && Monotone(calls)
    ensures Kept(limit, calls, Accepted(limit, calls))
    decreases |calls|
  {
    hide Within;
    if calls == [] {
    } else {
      var earlier := calls[..|calls| - 1];
      RunKeeps(limit, earlier);
      assert calls == earlier + [calls[|calls| - 1]];
      hide Kept;
      CallKeeps(limit, earlier, Accepted(limit, earlier), calls[|calls| - 1]);
    }
  }

  lemma NothingTracked(now: real)
    ensures Tracks([], [], now)
  {
  }

  /**
   * For every run of calls with a clock that does not go back: accepted calls `i` and `i + limit` are at least one
   * second apart, and a rejected call finds `limit` accepted ones in the second before it.
   */
  lemma SlidingWindowIsSafe(limit: nat, calls: seq<real>, now: real)
    requires limit > 0 && Monotone(calls + [now])
    ensures var (times, window) := Accepted(limit, calls);
            && Spaced(times, limit)
            && (!Within(window, limit, now).0 ==>
                  |times| >= limit && forall i :: |times| - limit <= i < |times| ==> now - 1.0 < times[i] <= now)
  {
    hide Within, Spaced;
    assert forall i :: 0 <= i < |calls| ==> calls[i] == (calls + [now])[i];
    assert (calls + [now])[|calls|] == now;
    RunKeeps(limit, calls);
    var (times, window) := Accepted(limit, calls);
    if !Within(window, limit, now).0 {
      if calls == [] {
        NothingTracked(now);
      }
      RejectMeansBusy(times, window, limit, if calls == [] then now else calls[|calls| - 1], now);
    }
  }

  /** The windows of one connection, one for each key. */
  class SlidingRates {
    var windows: map<string, seq<real>>

    constructor ()
      ensures windows == map[]
    {
      windows := map[];
    }

    function WindowOf(key: string): seq<real>
      reads this
    {
      if key in windows then windows[key] else []
    }

    /** `_within_rate`: a limit of zero or less means none, and leaves the window alone. */
    method WithinRate(key: string, limit: int, now: real) returns (ok: bool)
      modifies this
      ensures limit <= 0 ==> ok && windows == old(windows)
      ensures limit > 0 ==> (ok, WindowOf(key)) == Within(old(WindowOf(key)), limit, now)
      ensures forall other: string :: other != key ==> WindowOf(other) == old(WindowOf(other))
    {
      if limit <= 0 {
        return true;
      }
      var window := WindowOf(key);
      while window != [] && now - window[0] >= 1.0
        invariant DropOld(old(WindowOf(key)), now) == DropOld(window, now)
        decreases |window|
      {
        window := window[1..];
      }
      if |window| >= limit {
        windows := windows[key := window];
        return false;
      }
      windows := windows[key := window + [now]];
      return true;
    }
  }

  // ---- fixed window

  const U32_MAX: nat := 0xFFFF_FFFF

  function SaturatingAdd(a: nat, b: nat): nat {
    if a + b > U32_MAX then U32_MAX else a + b
  }

  datatype Window = Window(started: real, global: nat, packets: map<nat, nat>) {
    function CountOf(key: nat): nat {
      if key in packets then packets[key] else 0
    }
  }

  /** A call: the clock as it is checked and as it is read again on a reset, the packet, its limit and the amount. */
  datatype Call = Call(now: real, reread: real, key: nat, packetLimit: nat, amount: nat)

  predicate Resets(w: Window, call: Call) {
    call.now - w.started >= 1.0
  }

  /** `RateState::allow`; rejected amounts count as well. */
  function Allow(w: Window, globalLimit: nat, call: Call): (bool, Window) {
    var open := if Resets(w, call) then Window(call.reread, 0, map[]) else w;
    var global := SaturatingAdd(open.global, call.amount);
    var count := SaturatingAdd(open.CountOf(call.key), call.amount);
    ((globalLimit == 0 || global <= globalLimit) && (call.packetLimit == 0 || count <= call.packetLimit),
     Window(open.started, global, open.packets[call.key := count]))
  }

  /** Which counter is meant: that of the connection, or that of one packet. */
  datatype Counter = Global | Packet(key: nat)

  function Count(w: Window, counter: Counter): nat {
    match counter case Global => w.global case Packet(key) => w.CountOf(key)
  }

  predicate Concerns(counter: Counter, call: Call) {
    counter.Global? || call.key == counter.key
  }

  function LimitFor(counter: Counter, globalLimit: nat, call: Call): nat {
    match counter case Global => globalLimit case Packet(_) => call.packetLimit
  }

  /** The amounts that were accepted at times in the second from `x` on, as far as the counter is concerned. */
  function AcceptedIn(w: Window, globalLimit: nat, calls: seq<Call>, counter: Counter, x: real): nat
    decreases |calls|
  {
    if calls == [] then 0
    else
      var (ok, next) := Allow(w, globalLimit, calls[0]);
      (if ok && Concerns(counter, calls[0]) && x <= calls[0].now < x + 1.0 then calls[0].amount else 0)
      + AcceptedIn(next, globalLimit, calls[1..], counter, x)
  }

  /** The clock does not go back, between the calls or within one. */
  ghost predicate Clocked(from: real, calls: seq<Call>)
    decreases |calls|
  {
    calls == [] || (from <= calls[0].now <= calls[0].reread && Clocked(calls[0].reread, calls[1..]))
  }

  ghost predicate LimitedTo(counter: Counter, globalLimit: nat, calls: seq<Call>, limit: nat) {
    forall i :: 0 <= i < |calls| && Concerns(counter, calls[i]) ==> LimitFor(counter, globalLimit, calls[i]) == limit
  }

  lemma {:induction false} NothingLater(w: Window, globalLimit: nat, calls: seq<Call>, counter: Counter, x: real, from: real)
    requires Clocked(from, calls) && from >= x + 1.0
    ensures AcceptedIn(w, globalLimit, calls, counter, x) == 0
    decreases |calls|
  {
    hide Allow;
    if calls != [] {
      NothingLater(Allow(w, globalLimit, calls[0]).1, globalLimit, calls[1..], counter, x, calls[0].reread);
    }
  }

  /** What one call does to a counter: an accepted amount is counted in full, and the count stays within the limit. */
  lemma AllowCounts(w: Window, globalLimit: nat, call: Call, counter: Counter, limit: nat)
    requires 0 < limit < U32_MAX && (Concerns(counter, call) ==> LimitFor(counter, globalLimit, call) == limit)
    ensures var (ok, next) := Allow(w, globalLimit, call);
            var before := if Resets(w, call) then 0 else Count(w, counter);
            && Count(next, counter) == (if Concerns(counter, call) then SaturatingAdd(before, call.amount) else before)
            && (ok && Concerns(counter, call) ==> before + call.amount <= limit)
            && next.started == (if Resets(w, call) then call.reread else w.started)
  {
  }

  /** In a window that began at `x` or later, what is accepted before `x + 1` fits the rest of the limit. */
  lemma {:induction false} WithinOneWindow(w: Window, globalLimit: nat, calls: seq<Call>, counter: Counter, limit: nat, x: real, from: real)
    requires 0 < limit < U32_MAX && LimitedTo(counter, globalLimit, calls, limit) && Clocked(from, calls)
    requires x <= w.started
    ensures AcceptedIn(w, globalLimit, calls, counter, x) <= if Count(w, counter) <= limit then limit - Count(w, counter) else 0
    decreases |calls|
  {
    hide Allow, Count;
    if calls != [] {
      var next := Allow(w, globalLimit, calls[0]).1;
      AllowCounts(w, globalLimit, calls[0], counter, limit);
      if Resets(w, calls[0]) {
        NothingLater(next, globalLimit, calls[1..], counter, x, calls[0].reread);
      } else {
        WithinOneWindow(next, globalLimit, calls[1..], counter, limit, x, calls[0].reread);
      }
    }
  }

  /** In general one reset can fall into the second; `used` is what the current window has accepted since `x`. */
  lemma {:induction false} WithinTwoWindows(w: Window, globalLimit: nat, calls: seq<Call>, counter: Counter, limit: nat, x: real, from: real, used: nat)
    requires 0 < limit < U32_MAX && LimitedTo(counter, globalLimit, calls, limit) && Clocked(from, calls)
    requires used <= limit && used <= Count(w, counter) && (from < x ==> used == 0)
    ensures AcceptedIn(w, globalLimit, calls, counter, x) + used <= 2 * limit
    decreases |calls|
  {
    hide Allow, Count;
    if calls != [] {
      var (ok, next) := Allow(w, globalLimit, calls[0]);
      var call := calls[0];
      AllowCounts(w, globalLimit, call, counter, limit);
      if Resets(w, call) && x <= call.now {
        WithinOneWindow(next, globalLimit, calls[1..], counter, limit, x, call.reread);
      } else if Resets(w, call) {
        WithinTwoWindows(next, globalLimit, calls[1..], counter, limit, x, call.reread, 0);
      } else {
        var more := if ok && Concerns(counter, call) && x <= call.now < x + 1.0 then call.amount else 0;
        WithinTwoWindows(next, globalLimit, calls[1..], counter, limit, x, call.reread, used + more);
      }
    }
  }

  /**
   * For every run of calls with a clock that does not go back, and every second: the connection accepts at most twice
   * its limit, and so does every packet. The limit must not be the largest 32-bit number, at which the counters stop.
   */
  lemma FixedWindowIsSafe(start: real, globalLimit: nat, calls: seq<Call>, counter: Counter, limit: nat, x: real)
    requires 0 < limit < U32_MAX && LimitedTo(counter, globalLimit, calls, limit) && Clocked(start, calls)
    ensures AcceptedIn(Window(start, 0, map[]), globalLimit, calls, counter, x) <= 2 * limit
  {
    WithinTwoWindows(Window(start, 0, map[]), globalLimit, calls, counter, limit, x, start, 0);
  }

  /** `n` calls at one moment, of the largest amount, with the largest limit on one counter and none on the other. */
  function Burst(counter: Counter, n: nat): (calls: seq<Call>)
    ensures |calls| == n
  {
    seq(n, _ => Call(0.0, 0.0, if counter.Packet? then counter.key else 0, if counter.Packet? then U32_MAX else 0, U32_MAX))
  }

  function LimitOnly(counter: Counter): nat {
    if counter.Global? then U32_MAX else 0
  }

  lemma {:induction false} BurstIsAccepted(w: Window, counter: Counter, n: nat)
    requires w.started == 0.0
    ensures Clocked(0.0, Burst(counter, n))
    ensures AcceptedIn(w, LimitOnly(counter), Burst(counter, n), counter, 0.0) == n * U32_MAX
    decreases n
  {
    if n > 0 {
      var calls := Burst(counter, n);
      assert calls[1..] == Burst(counter, n - 1);
      BurstIsAccepted(Allow(w, LimitOnly(counter), calls[0]).1, counter, n - 1);
      assert n * U32_MAX == U32_MAX + (n - 1) * U32_MAX;
    }
  }

  /** At the largest limit either counter saturates at the limit itself, and runs of any size are accepted in one second. */
  lemma LargestLimitIsNone(counter: Counter, n: nat)
    ensures LimitedTo(counter, LimitOnly(counter), Burst(counter, n), U32_MAX) && Clocked(0.0, Burst(counter, n))
    ensures AcceptedIn(Window(0.0, 0, map[]), LimitOnly(counter), Burst(counter, n), counter, 0.0) == n * U32_MAX
  {
    BurstIsAccepted(Window(0.0, 0, map[]), counter, n);
  }

  /** No second of any run with a monotone clock holds more than twice the limit. */
  ghost predicate Limits(counter: Counter, limit: nat) {
    forall start: real, globalLimit: nat, calls: seq<Call>, x: real ::
      LimitedTo(counter, globalLimit, calls, limit) && Clocked(start, calls) ==>
        AcceptedIn(Window(start, 0, map[]), globalLimit, calls, counter, x) <= 2 * limit
  }

  /** A limit limits, for the connection and for each packet, if and only if it is below the largest 32-bit number. */
  lemma LimitsIff(counter: Counter, limit: nat)
    requires 0 < limit <= U32_MAX
    ensures Limits(counter, limit) <==> limit < U32_MAX
  {
    if limit < U32_MAX {
      forall start: real, globalLimit: nat, calls: seq<Call>, x: real | LimitedTo(counter, globalLimit, calls, limit) && Clocked(start, calls)
        ensures AcceptedIn(Window(start, 0, map[]), globalLimit, calls, counter, x) <= 2 * limit
      {
        FixedWindowIsSafe(start, globalLimit, calls, counter, limit, x);
      }
    } else {
      LargestLimitIsNone(counter, 3);
      assert AcceptedIn(Window(0.0, 0, map[]), LimitOnly(counter), Burst(counter, 3), counter, 0.0) > 2 * limit;
    }
  }

  // ---- when the fixed window rejects

  /** What was asked for since `x`, accepted or not, as far as the counter is concerned. */
  function AskedSince(calls: seq<Call>, counter: Counter, x: real): nat {
    if calls == [] then 0
    else (if Concerns(counter, calls[0]) && calls[0].reread >= x then calls[0].amount else 0) + AskedSince(calls[1..], counter, x)
  }

  /** The window after a run. */
  function After(w: Window, globalLimit: nat, calls: seq<Call>): Window
    decreases |calls|
  {
    if calls == [] then w else After(Allow(w, globalLimit, calls[0]).1, globalLimit, calls[1..])
  }

  /** A counter holds no more than was asked for since its window began. */
  lemma {:induction false} CountIsAsked(w: Window, globalLimit: nat, calls: seq<Call>, counter: Counter, from: real)
    requires Clocked(from, calls) && w.started <= from
    ensures var after := After(w, globalLimit, calls);
            && w.started <= after.started
            && Count(after, counter) <= (if after.started == w.started then Count(w, counter) else 0) + AskedSince(calls, counter, after.started)
    decreases |calls|
  {
    hide Count;
    if calls != [] {
      var next := Allow(w, globalLimit, calls[0]).1;
      CallCounts(w, globalLimit, calls[0], counter);
      CountIsAsked(next, globalLimit, calls[1..], counter, calls[0].reread);
    }
  }

  /** One call counts its amount, from nothing when the window is a second old. */
  lemma CallCounts(w: Window, globalLimit: nat, call: Call, counter: Counter)
    ensures var next := Allow(w, globalLimit, call).1;
            var before := if call.now - w.started >= 1.0 then 0 else Count(w, counter);
            && Count(next, counter) <= before + (if Concerns(counter, call) then call.amount else 0)
            && next.started == (if call.now - w.started >= 1.0 then call.reread else w.started)
  {
  }

  /** A counter with a limit is exceeded by what was asked for in the second before the call. */
  ghost predicate Exceeded(calls: seq<Call>, globalLimit: nat, call: Call, counter: Counter) {
    && Concerns(counter, call) && LimitFor(counter, globalLimit, call) > 0
    && exists x: real :: x > call.now - 1.0 && AskedSince(calls, counter, x) + call.amount > LimitFor(counter, globalLimit, call)
  }

  /**
   * For every run with a clock that does not go back: a call is rejected only if, with it, more than a limit was asked for
   * within the last second, by the connection or of the packet.
   */
  lemma RejectionMeansBusy(start: real, globalLimit: nat, calls: seq<Call>, call: Call)
    requires Clocked(start, calls + [call])
    ensures !Allow(After(Window(start, 0, map[]), globalLimit, calls), globalLimit, call).0 ==>
              exists counter :: Exceeded(calls, globalLimit, call, counter)
  {
    hide Allow, After;
    var first := Window(start, 0, map[]);
    var w := After(first, globalLimit, calls);
    ClockedFront(start, calls, call);
    CountIsAsked(first, globalLimit, calls, Global, start);
    CountIsAsked(first, globalLimit, calls, Packet(call.key), start);
    if !Allow(w, globalLimit, call).0 {
      var counter := RejectedBy(w, globalLimit, call);
      var x := if call.now - w.started >= 1.0 then call.now else w.started;
      assert Count(first, counter) == 0;
      assert AskedSince(calls, counter, x) + call.amount > LimitFor(counter, globalLimit, call);
      assert Exceeded(calls, globalLimit, call, counter);
    }
  }

  lemma RejectedBy(w: Window, globalLimit: nat, call: Call) returns (counter: Counter)
    requires !Allow(w, globalLimit, call).0
    ensures (counter == Global || counter == Packet(call.key)) && Concerns(counter, call) && LimitFor(counter, globalLimit, call) > 0
    ensures (if call.now - w.started >= 1.0 then 0 else Count(w, counter)) + call.amount > LimitFor(counter, globalLimit, call)
  {
    var before := if call.now - w.started >= 1.0 then 0 else w.global;
    counter := if globalLimit > 0 && before + call.amount > globalLimit then Global else Packet(call.key);
  }

  lemma {:induction false} ClockedFront(from: real, calls: seq<Call>, call: Call)
    requires Clocked(from, calls + [call])
    ensures Clocked(from, calls)
    decreases |calls|
  {
    if calls != [] {
      assert (calls + [call])[0] == calls[0] && (calls + [call])[1..] == calls[1..] + [call];
      ClockedFront(calls[0].reread, calls[1..], call);
    }
  }

  /** A second after it began, a window lets through whatever alone keeps to the limits. */
  lemma WindowReopens(w: Window, globalLimit: nat, call: Call)
    requires call.now >= w.started + 1.0 && call.amount <= U32_MAX
    ensures Allow(w, globalLimit, call).0 <==>
            (globalLimit == 0 || call.amount <= globalLimit) && (call.packetLimit == 0 || call.amount <= call.packetLimit)
  {
  }

  class RateState {
    var started: real
    var global: nat
    var packets: map<nat, nat>

    function State(): Window
      reads this
    {
      Window(started, global, packets)
    }

    constructor (now: real)
      ensures State() == Window(now, 0, map[])
    {
      started, global, packets := now, 0, map[];
    }

    method AllowCall(globalLimit: nat, call: Call) returns (ok: bool)
      modifies this
      ensures (ok, State()) == Allow(old(State()), globalLimit, call)
    {
      if call.now - started >= 1.0 {
        started := call.reread;
        global := 0;
        packets := map[];
      }
      global := SaturatingAdd(global, call.amount);
      var count := SaturatingAdd(if call.key in packets then packets[call.key] else 0, call.amount);
      packets := packets[call.key := count];
      return (globalLimit == 0 || global <= globalLimit) && (call.packetLimit == 0 || count <= call.packetLimit);
    }
  }
}
