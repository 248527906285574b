/** What clients and servers can rely on over whole runs, and exactly when. */
module RecoveryTheorems {
  import opened Primitives
  import opened Recovery
  import opened RecoveryProofs

  /** The frames of one session, in the order of delivery. */
  function DeliveredOf(delivered: seq<Delivery>, s: SessionId): seq<Frame> {
    if delivered == [] then []
    else (if delivered[0].session == s then [delivered[0].frame] else []) + DeliveredOf(delivered[1..], s)
  }

  predicate Increasing(frames: seq<Frame>) {
    forall i, j :: 0 <= i < j < |frames| ==> frames[i].sequence < frames[j].sequence
  }

  predicate Holds(frames: seq<Frame>, k: nat) {
    exists i :: 0 <= i < |frames| && frames[i].sequence == k
  }

  ghost predicate IncreasingPerSession(delivered: seq<Delivery>) {
    forall i, j :: 0 <= i < j < |delivered| && delivered[i].session == delivered[j].session ==>
      delivered[i].frame.sequence < delivered[j].frame.sequence
  }

  lemma {:induction false} DeliveredOfMembers(delivered: seq<Delivery>, s: SessionId)
    ensures forall i :: 0 <= i < |DeliveredOf(delivered, s)| ==> Delivery(s, DeliveredOf(delivered, s)[i]) in delivered
    ensures forall d :: d in delivered && d.session == s ==> d.frame in DeliveredOf(delivered, s)
    ensures IncreasingPerSession(delivered) ==> Increasing(DeliveredOf(delivered, s))
  {
    if delivered != [] {
      DeliveredOfMembers(delivered[1..], s);
      var first, rest := delivered[0], DeliveredOf(delivered[1..], s);
      if first.session == s {
        assert DeliveredOf(delivered, s) == [first.frame] + rest;
        if IncreasingPerSession(delivered) {
          forall i | 0 <= i < |rest| ensures first.frame.sequence < rest[i].sequence {
            assert Delivery(s, rest[i]) in delivered[1..];
            var j :| 0 <= j < |delivered[1..]| && delivered[1..][j] == Delivery(s, rest[i]);
            assert delivered[j + 1] == Delivery(s, rest[i]);
          }
        }
      }
    }
  }

  /** Growing numbers that are exactly `1..n` are `1, 2, .., n`. */
  lemma {:induction false} IncreasingAndComplete(frames: seq<Frame>, n: nat)
    requires Increasing(frames)
    requires forall i :: 0 <= i < |frames| ==> 1 <= frames[i].sequence <= n
    requires forall k :: 1 <= k <= n ==> Holds(frames, k)
    ensures |frames| == n && forall i :: 0 <= i < n ==> frames[i].sequence == i + 1
    decreases n
  {
    assert |frames| > 0 ==> 1 <= frames[0].sequence <= n;
    if n > 0 {
      assert Holds(frames, n);
      var last := |frames| - 1;
      var i :| 0 <= i < |frames| && frames[i].sequence == n;
      assert frames[last].sequence <= n;
      assert i == last;
      forall k | 1 <= k <= n - 1 ensures Holds(frames[..last], k) {
        assert Holds(frames, k);
        var j :| 0 <= j < |frames| && frames[j].sequence == k;
        assert frames[..last][j].sequence == k;
      }
      IncreasingAndComplete(frames[..last], n - 1);
    }
  }

  /** Nothing is on the way, and the client's last recovery is answered. */
  predicate Drained(st: State) {
    st.attached.Some? && st.down == [] && st.up == [] && st.client.pending.None?
  }

  /** Over every orderly run: retained frames are the last `max` ones sent; deliveries are genuine and only grow. */
  lemma RetainedAndDelivered(steps: seq<Step>, max: nat)
    requires Orderly(INITIAL, steps, max) && Run(INITIAL, steps, max).Some?
    ensures var st := Run(INITIAL, steps, max).value;
            && (forall s :: s in st.sessions ==> Retains(st.sessions[s], st.Sent(s), max))
            && (forall s :: Increasing(DeliveredOf(st.delivered, s)))
            && (forall i :: 0 <= i < |st.delivered| ==>
                  var d := st.delivered[i];
                  1 <= d.frame.sequence <= |st.Sent(d.session)| && d.frame.data == st.Sent(d.session)[d.frame.sequence - 1])
  {
    InitialInvariant(max);
    RunKeeps(INITIAL, steps, max);
    var st := Run(INITIAL, steps, max).value;
    forall s ensures Increasing(DeliveredOf(st.delivered, s)) {
      DeliveredOfMembers(st.delivered, s);
    }
  }

  /** Over every orderly run: a RESUME in time re-sends exactly the last `min(sent - last, max)` frames, and says how many. */
  lemma ResumeResendsExactly(steps: seq<Step>, max: nat, now: int)
    requires Orderly(INITIAL, steps, max) && Run(INITIAL, steps, max).Some?
    requires var st := Run(INITIAL, steps, max).value;
             st.up != [] && Resumable(st.sessions, st.up[0].id, now, true)
    ensures var st := Run(INITIAL, steps, max).value;
            var sent, last := st.Sent(st.up[0].id), st.up[0].lastSequence;
            && st.attached.Some? && last == st.client.last <= |sent|
            && var count := Min(|sent| - last, max);
            AfterAnswer(st, now, true).down == Replays(st.up[0].id, Suffix(sent, count)) + [Resumed(true, count)]
  {
    hide Run, Orderly, Invariant, Missed, Evicted, Suffix;
    InitialInvariant(max);
    RunKeeps(INITIAL, steps, max);
    var st := Run(INITIAL, steps, max).value;
    OnlyAsking(st, max);
    ResentFrames(st, max);
  }

  lemma OnlyAsking(st: State, max: nat)
    requires Invariant(st, max) && st.up != []
    ensures Asking(st)
  {
  }

  /** In a drained state, the client has exactly the numbers of its session that are neither lost nor silent. */
  lemma DrainedIsComplete(st: State, max: nat)
    requires Invariant(st, max) && Drained(st)
    ensures st.client.sessionId == st.attached
    ensures var s := st.attached.value;
            forall k: nat :: Received(st, s, k) <==> 1 <= k <= |st.Sent(s)| && k !in st.Lost(s) && k !in st.Silent(s)
  {
    assert Live(st);
    var a := st.attached.value;
    var from: nat :| Follows(st, a, st.client.last, from);
    assert AllSilent(from, |st.Sent(a)|, st.Silent(a));
    assert Accounts(st, a, st.client.last);
  }

  /**
   * Over every orderly run: once nothing is on the way, the numbers of the client's session that were never delivered
   * are exactly those that were already evicted when the client asked for them, and those sent silently since.
   */
  lemma NothingElseIsMissing(steps: seq<Step>, max: nat)
    requires Orderly(INITIAL, steps, max) && Run(INITIAL, steps, max).Some?
    requires Drained(Run(INITIAL, steps, max).value)
    ensures var st := Run(INITIAL, steps, max).value;
            var s := st.attached.value;
            && st.client.sessionId == st.attached
            && (forall k: nat :: Received(st, s, k) <==> 1 <= k <= |st.Sent(s)| && k !in st.Lost(s) && k !in st.Silent(s))
            && (forall k :: k in st.Lost(s) ==> k + max <= |st.Sent(s)|)
            && (Audible(INITIAL, steps, max) ==> st.Silent(s) == {})
  {
    InitialInvariant(max);
    RunKeeps(INITIAL, steps, max);
    var st := Run(INITIAL, steps, max).value;
    DrainedIsComplete(st, max);
    assert OnlyEvictedIsLost(st, st.attached.value, max);
    if Audible(INITIAL, steps, max) {
      AudibleIsNotSilent(INITIAL, steps, max);
    }
  }

  /** Only numbers of sessions that no live connection holds are given to frames that go nowhere. */
  predicate Audible(st: State, steps: seq<Step>, max: nat)
    decreases |steps|
  {
    if steps == [] || !Enabled(st, steps[0]) then true
    else (steps[0].SendSilently? ==> st.attached != Some(steps[0].id)) && Audible(After(st, steps[0], max), steps[1..], max)
  }

  ghost predicate NoneSilent(st: State) {
    forall s: SessionId :: st.Silent(s) == {}
  }

  lemma AudibleStep(st: State, step: Step, max: nat)
    requires NoneSilent(st) && Enabled(st, step) && (step.SendSilently? ==> st.attached != Some(step.id))
    ensures NoneSilent(After(st, step, max))
  {
    hide Missed, Evicted, Push, Replays, Enabled;
    var next := After(st, step, max);
    forall s: SessionId ensures next.Silent(s) == {} {
      assert st.Silent(s) == {};
    }
  }

  lemma {:induction false} AudibleIsNotSilent(st: State, steps: seq<Step>, max: nat)
    requires Audible(st, steps, max) && Run(st, steps, max).Some? && NoneSilent(st)
    ensures NoneSilent(Run(st, steps, max).value)
    decreases |steps|
  {
    hide After, Enabled, NoneSilent;
    if steps != [] {
      AudibleStep(st, steps[0], max);
      AudibleIsNotSilent(After(st, steps[0], max), steps[1..], max);
    }
  }

  /** The frames delivered of a session, if they are genuine, in order and complete. */
  lemma CompleteInOrder(delivered: seq<Delivery>, s: SessionId, sent: seq<Payload>)
    requires Increasing(DeliveredOf(delivered, s))
    requires forall d :: d in delivered && d.session == s ==>
               1 <= d.frame.sequence <= |sent| && d.frame.data == sent[d.frame.sequence - 1]
    requires forall k :: 1 <= k <= |sent| ==> Holds(DeliveredOf(delivered, s), k)
    ensures DeliveredOf(delivered, s) == Suffix(sent, |sent|)
  {
    var frames := DeliveredOf(delivered, s);
    DeliveredOfMembers(delivered, s);
    forall i | 0 <= i < |frames|
      ensures 1 <= frames[i].sequence <= |sent| && frames[i].data == sent[frames[i].sequence - 1]
    {
      assert Delivery(s, frames[i]) in delivered;
    }
    IncreasingAndComplete(frames, |sent|);
    assert forall i :: 0 <= i < |sent| ==> frames[i] == Suffix(sent, |sent|)[i];
  }

  /** A number was received if and only if a frame delivered has it. */
  lemma ReceivedIsHeld(st: State, s: SessionId, k: nat)
    ensures Received(st, s, k) <==> Holds(DeliveredOf(st.delivered, s), k)
  {
    var frames := DeliveredOf(st.delivered, s);
    DeliveredOfMembers(st.delivered, s);
    if Received(st, s, k) {
      var i :| 0 <= i < |st.delivered| && st.delivered[i].session == s && st.delivered[i].frame.sequence == k;
      assert st.delivered[i] in st.delivered;
      assert st.delivered[i].frame in frames;
    }
    if Holds(frames, k) {
      var i :| 0 <= i < |frames| && frames[i].sequence == k;
      assert Delivery(s, frames[i]) in st.delivered;
    }
  }

  /**
   * Over every orderly run: once nothing is on the way, the client has everything sent in its session, once each and in
   * order, if and only if nothing was evicted too early and nothing sent silently without being re-sent.
   */
  lemma ExactlyOnceInOrderIff(steps: seq<Step>, max: nat)
    requires Orderly(INITIAL, steps, max) && Run(INITIAL, steps, max).Some? && Drained(Run(INITIAL, steps, max).value)
    ensures var st := Run(INITIAL, steps, max).value;
            var s := st.attached.value;
            && (DeliveredOf(st.delivered, s) == Suffix(st.Sent(s), |st.Sent(s)|) <==> st.Lost(s) == {} && st.Silent(s) == {})
            && (Audible(INITIAL, steps, max) ==> st.Silent(s) == {})
  {
    hide Run, Orderly, Audible, Received, Holds, Suffix;
    NothingElseIsMissing(steps, max);
    RetainedAndDelivered(steps, max);
    var st := Run(INITIAL, steps, max).value;
    var s := st.attached.value;
    var sent := st.Sent(s);
    forall k ensures Received(st, s, k) <==> Holds(DeliveredOf(st.delivered, s), k) {
      ReceivedIsHeld(st, s, k);
    }
    if st.Lost(s) == {} && st.Silent(s) == {} {
      forall d | d in st.delivered && d.session == s
        ensures 1 <= d.frame.sequence <= |sent| && d.frame.data == sent[d.frame.sequence - 1]
      {
        var i :| 0 <= i < |st.delivered| && st.delivered[i] == d;
      }
      CompleteInOrder(st.delivered, s, sent);
    } else {
      MissingWasSent(steps, max);
      var k :| 1 <= k <= |sent| && (k in st.Lost(s) || k in st.Silent(s));
      SuffixHoldsAll(sent, k);
    }
  }

  lemma SuffixHoldsAll(sent: seq<Payload>, k: nat)
    requires 1 <= k <= |sent|
    ensures Holds(Suffix(sent, |sent|), k)
  {
    assert Suffix(sent, |sent|)[k - 1].sequence == k;
  }

  lemma MissingWasSent(steps: seq<Step>, max: nat)
    requires Orderly(INITIAL, steps, max) && Run(INITIAL, steps, max).Some?
    ensures var st := Run(INITIAL, steps, max).value;
            forall s: SessionId, k :: k in st.Lost(s) || k in st.Silent(s) ==> 1 <= k <= |st.Sent(s)|
  {
    InitialInvariant(max);
    RunKeeps(INITIAL, steps, max);
    var st := Run(INITIAL, steps, max).value;
    forall s: SessionId, k | k in st.Lost(s) || k in st.Silent(s) ensures 1 <= k <= |st.Sent(s)| {
      assert OnlyEvictedIsLost(st, s, max) && SilentWasSent(st, s);
    }
  }

  /** The next handshake after the transport is lost. */
  function Reconnected(st: State, now: int, grace: nat): State
    requires st.attached.Some? && st.attached.value in st.sessions
  {
    AfterDeliver(AfterConnect(AfterDisconnect(st, now, grace)))
  }

  /**
   * When a transport is lost, the next RESUME names the session that the client was counting for if and only if no
   * recovery is outstanding, and its count is right for the session it names if and only if none is outstanding or the
   * count is zero. The client takes over the new session id with the handshake but keeps counting for the old session
   * until RESUMED arrives; if the transport is lost in between, the next RESUME names the new session with the old count.
   */
  lemma NextResumeContinuesIff(st: State, now: int, grace: nat, max: nat)
    requires Invariant(st, max) && st.attached.Some? && st.client.sessionId.Some?
    ensures var next := Reconnected(st, now, grace);
            var named := st.client.sessionId.value;
            && next.up == [Resume(named, st.client.last)] && Home(next.client) == Some(named)
            && (Home(st.client) == Some(named) <==> st.client.pending.None?)
            && (Accounts(next, named, st.client.last) <==> st.client.pending.None? || st.client.last == 0)
  {
    var gone := AfterDisconnect(st, now, grace);
    var next := Reconnected(st, now, grace);
    if Recovered(st.client) {
      DisconnectKeeps(st, now, grace, max);
      ConnectKeeps(gone, max);
      DeliverKeeps(AfterConnect(gone), max);
    } else {
      var named := st.client.sessionId.value;
      assert Untouched(st, named);
      assert next.delivered == st.delivered;
      assert Untouched(next, named);
      assert !Received(next, named, st.client.last);
    }
  }

  // ---- a run that loses a packet on a healthy connection

  lemma {:induction false} RunThen(st: State, steps: seq<Step>, step: Step, max: nat)
    requires Run(st, steps, max).Some? && Enabled(Run(st, steps, max).value, step)
    ensures Run(st, steps + [step], max) == Some(After(Run(st, steps, max).value, step, max))
    decreases |steps|
  {
    hide After, Enabled;
    if steps == [] {
      assert ([] + [step])[1..] == [];
    } else {
      assert (steps + [step])[1..] == steps[1..] + [step];
      RunThen(After(st, steps[0], max), steps[1..], step, max);
    }
  }

  /** One more step of a run from the start. */
  lemma Extend(steps: seq<Step>, st: State, step: Step, max: nat) returns (longer: seq<Step>, next: State)
    requires Run(INITIAL, steps, max) == Some(st) && Enabled(st, step)
    ensures longer == steps + [step] && next == After(st, step, max) && Run(INITIAL, longer, max) == Some(next)
  {
    hide After, Enabled;
    RunThen(INITIAL, steps, step, max);
    longer, next := steps + [step], After(st, step, max);
  }

  lemma {:induction false} OrderlyThen(st: State, steps: seq<Step>, step: Step, max: nat)
    requires Orderly(st, steps, max) && Run(st, steps, max).Some?
    requires step.Disconnect? ==> Recovered(Run(st, steps, max).value.client)
    ensures Orderly(st, steps + [step], max)
    decreases |steps|
  {
    hide After, Enabled;
    if steps != [] {
      assert (steps + [step])[1..] == steps[1..] + [step];
      OrderlyThen(After(st, steps[0], max), steps[1..], step, max);
    }
  }

  /** An orderly run from the start. */
  ghost predicate Reaches(steps: seq<Step>, max: nat, st: State) {
    Run(INITIAL, steps, max) == Some(st) && Orderly(INITIAL, steps, max)
  }

  lemma Start(max: nat)
    ensures Reaches([], max, INITIAL)
  {
  }

  lemma Further(steps: seq<Step>, st: State, step: Step, max: nat) returns (longer: seq<Step>, next: State)
    requires Reaches(steps, max, st) && Enabled(st, step) && (step.Disconnect? ==> Recovered(st.client))
    ensures longer == steps + [step] && next == After(st, step, max) && Reaches(longer, max, next)
  {
    hide After, Enabled;
    OrderlyThen(INITIAL, steps, step, max);
    longer, next := Extend(steps, st, step, max);
  }

  /** One packet is sent and read; the transport is lost, and lost again before the recovery is answered. */
  lemma LostBeforeAnswer() returns (steps: seq<Step>, st: State)
    ensures Run(INITIAL, steps, 10) == Some(st)
    ensures st.unused == 2 && st.attached.None? && st.client == Client(Some(1), 1, Some(0)) && st.down == [] && st.up == []
    ensures 1 in st.sessions && st.sessions[1] == Session(0, [], At(60)) && st.Sent(1) == [] && st.lost == map[] && st.silent == map[]
    ensures st.delivered == [Delivery(0, Frame(1, [1]))]
  {
    hide Run;
    assert Run(INITIAL, [], 10) == Some(INITIAL) by { RunNothing(INITIAL, 10); }
    steps, st := Extend([], INITIAL, Connect, 10);
    assert st.down[1..] == [];
    steps, st := Extend(steps, st, Deliver, 10);
    assert st.client == Client(Some(0), 0, None) && st.up == [];
    steps, st := Extend(steps, st, Send([1]), 10);
    assert st.down == [Replay(0, Frame(1, [1]))] && st.down[1..] == [];
    steps, st := Extend(steps, st, Deliver, 10);
    assert st.client == Client(Some(0), 1, None);
    steps, st := Extend(steps, st, Disconnect(0, 60), 10);
    steps, st := Extend(steps, st, Connect, 10);
    assert st.down[1..] == [];
    steps, st := Extend(steps, st, Deliver, 10);
    steps, st := Extend(steps, st, Disconnect(0, 60), 10);
  }

  lemma RunNothing(st: State, max: nat)
    ensures Run(st, [], max) == Some(st)
  {
  }

  /** A run that ends with nothing on the way, nothing evicted, and a packet that the client dropped. */
  ghost predicate LosesPacket(steps: seq<Step>, max: nat) {
    Run(INITIAL, steps, max).Some? &&
    var st := Run(INITIAL, steps, max).value;
    Drained(st) && st.client.sessionId == st.attached && st.Lost(st.attached.value) == {} && st.Silent(st.attached.value) == {}
    && |st.Sent(st.attached.value)| == 1 && !Received(st, st.attached.value, 1)
  }

  /** The client of the run above comes back, and its recovery succeeds. */
  lemma BackWithWrongCount() returns (steps: seq<Step>, st: State)
    ensures Run(INITIAL, steps, 10) == Some(st)
    ensures st.attached == Some(1) && st.client == Client(Some(1), 1, None) && st.down == [] && st.up == []
    ensures 1 in st.sessions && st.sessions[1].sequence == 0 && st.Sent(1) == [] && st.Lost(1) == {} && st.Silent(1) == {}
    ensures st.delivered == [Delivery(0, Frame(1, [1]))]
  {
    hide Run;
    steps, st := LostBeforeAnswer();
    steps, st := Extend(steps, st, Connect, 10);
    assert st.down == [Hello(2)] && st.down[1..] == [];
    steps, st := Extend(steps, st, Deliver, 10);
    assert st.up == [Resume(1, 1)] && st.up[1..] == [] && st.down == [];
    steps, st := Extend(steps, st, Answer(0, true), 10);
    assert st.down == [Resumed(true, 0)] && st.down[1..] == [] && st.attached == Some(1);
    steps, st := Extend(steps, st, Deliver, 10);
  }

  /**
   * Without the condition the promise fails: the server sends one packet on the healthy connection, it arrives, and it is
   * dropped as already seen.
   */
  lemma DisorderlyRunLosesPacket()
    ensures exists steps :: LosesPacket(steps, 10)
  {
    hide Run;
    var steps, st := BackWithWrongCount();
    steps, st := Extend(steps, st, Send([2]), 10);
    assert st.down == [Replay(1, Frame(1, [2]))] && st.down[1..] == [];
    steps, st := Extend(steps, st, Deliver, 10);
    assert LosesPacket(steps, 10);
  }
}
