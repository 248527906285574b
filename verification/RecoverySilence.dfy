/** Frames that were numbered and retained while nothing reached the transport: when the client still gets them. */
module RecoverySilence {
  import opened Primitives
  import opened Recovery
  import opened RecoveryProofs
  import opened RecoveryTheorems
  import opened RecoveryLoss

  // ---- a session that the client will not ask for again

  /** Neither end of the system names session `s` any more. */
  ghost predicate Orphaned(st: State, s: SessionId) {
    && s < st.unused && st.attached != Some(s) && st.client.sessionId != Some(s)
    && (st.client.pending.Some? ==> st.client.sessionId.Some?)
    && (forall i :: 0 <= i < |st.up| ==> st.up[i].id != s)
    && (forall i :: 0 <= i < |st.down| ==> Foreign(st.down[i], s))
    && (st.client.pending == Some(s) ==> if st.down == [] then st.attached.None? else st.down[0].Hello?)
  }

  predicate Foreign(message: Message, s: SessionId) {
    match message
    case Hello(id) => id != s
    case Replay(origin, _) => origin != s
    case Resumed(_, _) => true
  }

  lemma OrphanedStep(st: State, step: Step, s: SessionId, max: nat)
    requires Orphaned(st, s) && Enabled(st, step)
    ensures Orphaned(After(st, step, max), s)
    ensures forall k :: Received(After(st, step, max), s, k) <==> Received(st, s, k)
  {
    hide Missed, Evicted, Trim, Received;
    if step.Deliver? {
      OrphanedDeliver(st, s);
    } else {
      SameReceived(st, After(st, step, max), s);
    }
  }

  lemma SameReceived(st: State, next: State, s: SessionId)
    requires next.delivered == st.delivered
    ensures forall k :: Received(next, s, k) <==> Received(st, s, k)
  {
  }

  lemma OrphanedDeliver(st: State, s: SessionId)
    requires Orphaned(st, s) && st.down != []
    ensures Orphaned(AfterDeliver(st), s)
    ensures forall k :: Received(AfterDeliver(st), s, k) <==> Received(st, s, k)
  {
    hide Received;
    var next := AfterDeliver(st);
    assert Foreign(st.down[0], s);
    assert forall i :: 0 <= i < |next.down| ==> next.down[i] == st.down[i + 1];
    if next.delivered == st.delivered {
      SameReceived(st, next, s);
    } else {
      forall k ensures Received(next, s, k) <==> Received(st, s, k) {
        ReceivedOneMore(st, next, Delivery(st.down[0].origin, st.down[0].frame), s, k);
      }
    }
  }

  /** Whatever happens, the client never asks for an orphaned session, and gets nothing more of it. */
  lemma {:induction false} OrphanedForGood(st: State, steps: seq<Step>, s: SessionId, max: nat)
    requires Orphaned(st, s) && Run(st, steps, max).Some?
    ensures Orphaned(Run(st, steps, max).value, s)
    ensures forall k :: Received(Run(st, steps, max).value, s, k) <==> Received(st, s, k)
    decreases |steps|
  {
    hide Orphaned, After, Enabled, Received;
    if steps != [] {
      OrphanedStep(st, steps[0], s, max);
      OrphanedForGood(After(st, steps[0], max), steps[1..], s, max);
    }
  }

  /** Losing a transport while a recovery is outstanding orphans the session that was asked for. */
  lemma LossOrphans(st: State, now: int, grace: nat, max: nat)
    requires Invariant(st, max) && st.attached.Some? && st.client.pending.Some?
    ensures Orphaned(AfterDisconnect(st, now, grace), st.client.pending.value)
    ensures forall k :: Received(AfterDisconnect(st, now, grace), st.client.pending.value, k) <==> Received(st, st.client.pending.value, k)
  {
  }

  // ---- numbers that the count has passed

  /** The client counts for `s` and is past the silent number `n`. */
  ghost predicate Passed(st: State, s: SessionId, n: nat, max: nat) {
    Invariant(st, max) && Home(st.client) == Some(s) && n in st.Silent(s) && n <= st.client.last
  }

  lemma PassedIsMissing(st: State, s: SessionId, n: nat, max: nat)
    requires Passed(st, s, n, max)
    ensures !Received(st, s, n) && 1 <= n
  {
    assert Accounts(st, s, st.client.last) && SilentWasSent(st, s);
  }

  /** Nothing brings the client back before `n`: it is still past it, or it has left the session. */
  lemma PassedStep(st: State, step: Step, s: SessionId, n: nat, max: nat)
    requires Passed(st, s, n, max) && Enabled(st, step)
    ensures var next := After(st, step, max); Passed(next, s, n, max) || (Orphaned(next, s) && !Received(next, s, n))
  {
    hide Invariant;
    PassedIsMissing(st, s, n, max);
    if step.Disconnect? && st.client.pending.Some? {
      LossOrphans(st, step.now, step.grace, max);
    } else {
      StepKeeps(st, step, max);
      if step.Deliver? {
        PassedDeliver(st, s, n, max);
      } else {
        PassedOtherwise(st, step, s, n, max);
      }
    }
  }

  lemma PassedOtherwise(st: State, step: Step, s: SessionId, n: nat, max: nat)
    requires Passed(st, s, n, max) && Enabled(st, step) && !step.Deliver?
    ensures var next := After(st, step, max); Home(next.client) == Some(s) && n in next.Silent(s) && n <= next.client.last
  {
    hide InFlight, Missed, Evicted, Push;
    if step.Answer? {
      assert Asking(st);
    }
  }

  lemma PassedDeliver(st: State, s: SessionId, n: nat, max: nat)
    requires Passed(st, s, n, max) && st.down != [] && Invariant(AfterDeliver(st), max)
    ensures var next := AfterDeliver(st); Passed(next, s, n, max) || (Orphaned(next, s) && !Received(next, s, n))
  {
    hide ServerInvariant, DeliveredInOrder, InFlight;
    PassedIsMissing(st, s, n, max);
    var next := AfterDeliver(st);
    assert next.Silent(s) == st.Silent(s);
    if Refused(st) && !st.down[0].Replay? {
      AttachedIsKnown(st, max);
      FramesOnTheWay(st.down, st.attached.value, 0, st.Sent(st.attached.value), st.Silent(st.attached.value));
      assert forall i :: 0 <= i < |next.down| ==> next.down[i] == st.down[i + 1] && next.down[i].Replay?;
      assert Orphaned(next, s);
    }
  }

  /** Frames on the way are of their session and not silent. */
  lemma {:induction false} FramesOnTheWay(down: seq<Message>, s: SessionId, from: nat, sent: seq<Payload>, silent: set<nat>)
    requires InFlight(down, s, from, sent, silent)
    ensures forall i :: 0 <= i < |down| && down[i].Replay? ==> down[i].origin == s && down[i].frame.sequence !in silent
    decreases |down|
  {
    if down != [] {
      FramesOnTheWay(down[1..], s, Past(down[0], from), sent, silent);
      assert forall i :: 1 <= i < |down| ==> down[i] == down[1..][i - 1];
    }
  }

  /** Once the count is past a silent number, no continuation delivers it, lost transports and further sends included. */
  lemma {:induction false} PassedForGood(st: State, steps: seq<Step>, s: SessionId, n: nat, max: nat)
    requires Passed(st, s, n, max) && Run(st, steps, max).Some?
    ensures !Received(Run(st, steps, max).value, s, n)
    decreases |steps|
  {
    hide Passed, After, Enabled, Received, Orphaned;
    if steps == [] {
      PassedIsMissing(st, s, n, max);
    } else {
      PassedStep(st, steps[0], s, n, max);
      var next := After(st, steps[0], max);
      if Passed(next, s, n, max) {
        PassedForGood(next, steps[1..], s, n, max);
      } else {
        OrphanedForGood(next, steps[1..], s, max);
      }
    }
  }

  // ---- numbers that are no longer retained

  ghost predicate Forgotten(st: State, s: SessionId, n: nat) {
    && s < st.unused && !Received(st, s, n)
    && (s in st.sessions ==> n <= st.sessions[s].sequence && forall i :: 0 <= i < |st.sessions[s].frames| ==> st.sessions[s].frames[i].sequence != n)
    && forall i :: 0 <= i < |st.down| ==> !IsFrame(st.down[i], s, n)
  }

  predicate IsFrame(message: Message, s: SessionId, n: nat) {
    message.Replay? && message.origin == s && message.frame.sequence == n
  }

  lemma {:induction false} MissedIsRetained(frames: seq<Frame>, last: nat)
    ensures forall i :: 0 <= i < |Missed(frames, last)| ==> Missed(frames, last)[i] in frames
  {
    if frames != [] {
      MissedIsRetained(frames[1..], last);
    }
  }

  lemma ForgottenStep(st: State, step: Step, s: SessionId, n: nat, max: nat)
    requires Forgotten(st, s, n) && Enabled(st, step)
    ensures Forgotten(After(st, step, max), s, n)
  {
    hide Received, AfterAnswer, AfterDeliver, AfterSend, AfterSilence;
    match step
    case Deliver => ForgottenDeliver(st, s, n);
    case Answer(now, authorized) => ForgottenAnswer(st, now, authorized, s, n);
    case Send(data) => ForgottenSend(st, AfterSend(st, data, max), st.attached.value, data, s, n, max);
    case SendSilently(id, data) => ForgottenSend(st, AfterSilence(st, id, data, max), id, data, s, n, max);
    case _ => SameReceived(st, After(st, step, max), s);
  }

  /** The number of a new frame is above all numbers before it. */
  lemma ForgottenSend(st: State, next: State, id: SessionId, data: Payload, s: SessionId, n: nat, max: nat)
    requires Forgotten(st, s, n) && id in st.sessions
    requires next == AfterSilence(st, id, data, max) || (st.attached == Some(id) && next == AfterSend(st, data, max))
    ensures Forgotten(next, s, n)
  {
    hide Received;
    SameReceived(st, next, s);
  }

  lemma ForgottenDeliver(st: State, s: SessionId, n: nat)
    requires Forgotten(st, s, n) && st.down != []
    ensures Forgotten(AfterDeliver(st), s, n)
  {
    hide Received;
    var next := AfterDeliver(st);
    assert !IsFrame(st.down[0], s, n);
    assert forall i :: 0 <= i < |next.down| ==> next.down[i] == st.down[i + 1];
    if next.delivered == st.delivered {
      SameReceived(st, next, s);
    } else {
      ReceivedOneMore(st, next, Delivery(st.down[0].origin, st.down[0].frame), s, n);
    }
  }

  lemma ForgottenAnswer(st: State, now: int, authorized: bool, s: SessionId, n: nat)
    requires Forgotten(st, s, n) && st.up != [] && st.attached.Some?
    ensures Forgotten(AfterAnswer(st, now, authorized), s, n)
  {
    hide Missed, Evicted, Received;
    SameReceived(st, AfterAnswer(st, now, authorized), s);
    if st.up[0].id in st.sessions {
      MissedIsRetained(st.sessions[st.up[0].id].frames, st.up[0].lastSequence);
    }
  }

  lemma {:induction false} ForgottenForGood(st: State, steps: seq<Step>, s: SessionId, n: nat, max: nat)
    requires Forgotten(st, s, n) && Run(st, steps, max).Some?
    ensures !Received(Run(st, steps, max).value, s, n)
    decreases |steps|
  {
    hide After, Enabled;
    if steps != [] {
      ForgottenStep(st, steps[0], s, n, max);
      ForgottenForGood(After(st, steps[0], max), steps[1..], s, n, max);
    }
  }

  // ---- numbers that the next RESUME brings

  /** The handshake is read, no RESUME is on the way. */
  predicate Flowing(st: State) {
    st.attached.Some? && st.up == [] && forall i :: 0 <= i < |st.down| ==> !st.down[i].Hello?
  }

  lemma FlowingStep(st: State, max: nat)
    requires Invariant(st, max) && Flowing(st) && st.down != []
    ensures var next := AfterDeliver(st);
            && Invariant(next, max) && Flowing(next) && |next.down| == |st.down| - 1 && next.attached == st.attached
            && next.sent == st.sent && next.lost == st.lost && next.silent == st.silent
  {
    hide Invariant;
    DeliverKeeps(st, max);
    assert !st.down[0].Hello?;
    assert forall i :: 0 <= i < |st.down[1..]| ==> st.down[1..][i] == st.down[i + 1];
  }

  lemma DrainedAtLast(st: State, max: nat)
    requires Invariant(st, max) && Flowing(st) && st.down == []
    ensures Drained(st)
  {
  }

  /** Everything on the way is delivered. */
  lemma {:induction false} Drains(base: State, steps: seq<Step>, st: State, max: nat) returns (longer: seq<Step>, end: State)
    requires Run(base, steps, max) == Some(st) && Invariant(st, max) && Flowing(st)
    ensures Run(base, longer, max) == Some(end) && Invariant(end, max) && Drained(end) && end.attached == st.attached
    ensures steps <= longer && forall i :: |steps| <= i < |longer| ==> longer[i] == Deliver
    ensures end.sent == st.sent && end.lost == st.lost && end.silent == st.silent
    decreases |st.down|
  {
    hide Run, Invariant, AfterDeliver;
    if st.down == [] {
      DrainedAtLast(st, max);
      longer, end := steps, st;
    } else {
      FlowingStep(st, max);
      var more, next := Extended(base, steps, st, Deliver, max);
      longer, end := Drains(base, more, next, max);
    }
  }

  lemma LiveIsKnown(st: State, max: nat)
    requires Invariant(st, max) && Live(st)
    ensures var s := st.attached.value; s in st.sessions && s < st.unused && st.sessions[s].sequence == |st.Sent(s)|
  {
    AttachedIsKnown(st, max);
  }

  /** The transport is lost and replaced, and the recovery succeeds. */
  lemma Resumes(st: State, max: nat) returns (steps: seq<Step>, back: State)
    requires Invariant(st, max) && Live(st)
    ensures var s := st.attached.value;
            && Run(st, steps, max) == Some(back) && Invariant(back, max) && Flowing(back) && back.attached == st.attached
            && back.sent == st.sent && forall k :: k in back.Silent(s) ==> k <= st.client.last
  {
    hide Run, Invariant, Missed, Evicted, InFlight;
    var s := st.attached.value;
    LiveIsKnown(st, max);
    assert Run(st, [], max) == Some(st) by { RunNothing(st, max); }
    StepKeeps(st, Disconnect(0, 0), max);
    steps, back := Extended(st, [], st, Disconnect(0, 0), max);
    StepKeeps(back, Connect, max);
    steps, back := Extended(st, steps, back, Connect, max);
    assert back.down == [Hello(st.unused)] && back.down[1..] == [];
    StepKeeps(back, Deliver, max);
    steps, back := Extended(st, steps, back, Deliver, max);
    assert back.up == [Resume(s, st.client.last)] && back.up[1..] == [] && back.down == [];
    StepKeeps(back, Answer(0, true), max);
    steps, back := Extended(st, steps, back, Answer(0, true), max);
  }

  lemma SilentIsResent(st: State, n: nat, max: nat) returns (steps: seq<Step>)
    requires Invariant(st, max) && Live(st) && n in st.Silent(st.attached.value)
    requires st.client.last < n && n + max > |st.Sent(st.attached.value)|
    ensures Run(st, steps, max).Some? && Received(Run(st, steps, max).value, st.attached.value, n)
  {
    hide Run, InFlight, ClientInvariant;
    var s := st.attached.value;
    assert SilentWasSent(st, s);
    var back, end;
    steps, back := Resumes(st, max);
    steps, end := Drains(st, steps, back, max);
    DrainedIsComplete(end, max);
    assert end.Silent(s) == back.Silent(s) && end.Sent(s) == st.Sent(s);
    assert OnlyEvictedIsLost(end, s, max);
  }

  lemma SilentIsForgotten(st: State, n: nat, max: nat)
    requires Invariant(st, max) && Live(st) && n in st.Silent(st.attached.value) && n + max <= |st.Sent(st.attached.value)|
    ensures Forgotten(st, st.attached.value, n)
  {
    var s := st.attached.value;
    assert SilentWasSent(st, s) && Accounts(st, s, st.client.last);
    var from: nat :| Follows(st, s, st.client.last, from);
    FramesOnTheWay(st.down, s, from, st.Sent(s), st.Silent(s));
    assert Retains(st.sessions[s], st.Sent(s), max);
  }

  predicate NothingAbove(st: State, s: SessionId, n: nat) {
    forall i :: 0 <= i < |st.delivered| && st.delivered[i].session == s ==> st.delivered[i].frame.sequence <= n
  }

  lemma CountIsHighest(st: State, s: SessionId, n: nat)
    requires Accounts(st, s, st.client.last) && n in st.Silent(s)
    ensures st.client.last < n <==> NothingAbove(st, s, n) && 0 < n
  {
    if st.client.last < n {
      forall i | 0 <= i < |st.delivered| && st.delivered[i].session == s ensures st.delivered[i].frame.sequence <= n {
        assert Received(st, s, st.delivered[i].frame.sequence);
      }
    } else if st.client.last > 0 {
      assert Received(st, s, st.client.last);
    }
  }

  ghost predicate Obtainable(st: State, s: SessionId, n: nat, max: nat) {
    exists steps :: Run(st, steps, max).Some? && Received(Run(st, steps, max).value, s, n)
  }

  /**
   * On a connection whose recovery is answered, a number of its session that was sent silently can still reach the client
   * if and only if nothing with a higher number has reached it and the frame is still retained. If so, losing the
   * transport and resuming brings it; if not, no continuation does, whatever is lost, resumed or sent.
   */
  lemma SilentIsObtainableIff(st: State, n: nat, max: nat)
    requires Invariant(st, max) && Live(st) && n in st.Silent(st.attached.value)
    ensures Obtainable(st, st.attached.value, n, max) <==>
            NothingAbove(st, st.attached.value, n) && n + max > |st.Sent(st.attached.value)|
  {
    hide Run, InFlight, ServerInvariant, DeliveredInOrder, Received, NothingAbove;
    var s := st.attached.value;
    assert Accounts(st, s, st.client.last);
    CountIsHighest(st, s, n);
    SilentIsPositive(st, s, n, max);
    if st.client.last >= n {
      forall steps | Run(st, steps, max).Some? ensures !Received(Run(st, steps, max).value, s, n) {
        PassedForGood(st, steps, s, n, max);
      }
    } else if n + max <= |st.Sent(s)| {
      SilentIsForgotten(st, n, max);
      forall steps | Run(st, steps, max).Some? ensures !Received(Run(st, steps, max).value, s, n) {
        ForgottenForGood(st, steps, s, n, max);
      }
    } else {
      var steps := SilentIsResent(st, n, max);
    }
  }

  lemma SilentIsPositive(st: State, s: SessionId, n: nat, max: nat)
    requires ServerInvariant(st, max) && n in st.Silent(s)
    ensures 1 <= n <= |st.Sent(s)|
  {
    assert SilentWasSent(st, s);
  }

  // ---- a silent send followed by a live one

  /** The number that the next send gets. */
  function Next(st: State): nat
    requires st.attached.Some?
  {
    |st.Sent(st.attached.value)| + 1
  }

  lemma LiveAgain(st: State, max: nat)
    requires Invariant(st, max) && st.attached.Some? && st.client.pending.None? && st.client.sessionId == st.attached
    ensures Live(st) && Flowing(st) && Settled(st)
  {
  }

  lemma SentAndSilentBelow(st: State, max: nat)
    requires Invariant(st, max) && Live(st)
    ensures var s := st.attached.value;
            && s in st.sessions && st.sessions[s].sequence == |st.Sent(s)|
            && forall k :: k in st.Lost(s) || k in st.Silent(s) ==> k <= |st.Sent(s)|
  {
    var s := st.attached.value;
    AttachedIsKnown(st, max);
    assert OnlyEvictedIsLost(st, s, max) && SilentWasSent(st, s);
  }

  /** The two sends, before anything is delivered. */
  lemma TwoSends(st: State, stale: Payload, live: Payload, max: nat) returns (steps: seq<Step>, next: State)
    requires Invariant(st, max) && Live(st)
    ensures steps == [SendSilently(st.attached.value, stale), Send(live)] && Run(st, steps, max) == Some(next)
    ensures Invariant(next, max) && Live(next) && next.attached == st.attached && |next.Sent(st.attached.value)| == Next(st) + 1
    ensures next.Silent(st.attached.value) == st.Silent(st.attached.value) + {Next(st)}
    ensures next.lost == st.lost
  {
    hide Run, InFlight, ServerInvariant, ClientInvariant, Push;
    var s := st.attached.value;
    SentAndSilentBelow(st, max);
    assert Run(st, [], max) == Some(st) by { RunNothing(st, max); }
    StepKeeps(st, SendSilently(s, stale), max);
    steps, next := Extended(st, [], st, SendSilently(s, stale), max);
    LiveAgain(next, max);
    StepKeeps(next, Send(live), max);
    steps, next := Extended(st, steps, next, Send(live), max);
    LiveAgain(next, max);
  }

  /**
   * From every connection whose recovery is answered: a silent send and a live one behind it, everything delivered, and
   * no continuation ever delivers the silent one.
   */
  lemma StaleSendIsSkipped(st: State, stale: Payload, live: Payload, max: nat) returns (steps: seq<Step>, end: State)
    requires Invariant(st, max) && Live(st)
    ensures |steps| >= 2 && steps[0] == SendSilently(st.attached.value, stale) && steps[1] == Send(live)
    ensures forall i :: 2 <= i < |steps| ==> steps[i] == Deliver
    ensures Run(st, steps, max) == Some(end) && Drained(end) && end.attached == st.attached && end.lost == st.lost
    ensures Received(end, st.attached.value, Next(st) + 1) && !Obtainable(end, st.attached.value, Next(st), max)
  {
    hide Run, InFlight, ServerInvariant, ClientInvariant, Received, NothingAbove;
    var s, n := st.attached.value, Next(st);
    SentAndSilentBelow(st, max);
    var two, sent := TwoSends(st, stale, live, max);
    LiveAgain(sent, max);
    steps, end := Drains(st, two, sent, max);
    assert steps[0] == two[0] && steps[1] == two[1];
    DrainedIsComplete(end, max);
    assert Received(end, s, n + 1);
    assert !NothingAbove(end, s, n) by { AboveIsReceived(end, s, n, n + 1); }
    LiveAgain(end, max);
    SilentIsObtainableIff(end, n, max);
  }

  lemma AboveIsReceived(st: State, s: SessionId, n: nat, k: nat)
    requires Received(st, s, k) && n < k
    ensures !NothingAbove(st, s, n)
  {
  }

  /** An orderly run that ends with nothing on the way, nothing evicted, and a packet that the client never gets. */
  ghost predicate SkipsPacket(steps: seq<Step>, st: State, max: nat) {
    && Reaches(steps, max, st) && Drained(st) && st.attached == Some(0) && st.Lost(0) == {} && st.Sent(0) == [[7], [8]]
    && !Received(st, 0, 1) && Received(st, 0, 2)
  }

  /** The client has resumed its session on a second connection. */
  lemma ResumedOnce() returns (steps: seq<Step>, st: State)
    ensures Reaches(steps, 10, st) && st.attached == Some(0) && st.client == Client(Some(0), 0, None)
    ensures st.down == [] && st.up == [] && st.sent == map[] && st.delivered == [] && st.Lost(0) == {}
    ensures 0 in st.sessions && st.sessions[0] == Session(0, [], Never)
  {
    hide Reaches;
    Start(10);
    steps, st := Further([], INITIAL, Connect, 10);
    assert st.down[1..] == [];
    steps, st := Further(steps, st, Deliver, 10);
    steps, st := Further(steps, st, Disconnect(0, 60), 10);
    steps, st := Further(steps, st, Connect, 10);
    assert st.down[1..] == [];
    steps, st := Further(steps, st, Deliver, 10);
    assert st.up == [Resume(0, 0)] && st.up[1..] == [];
    steps, st := Further(steps, st, Answer(0, true), 10);
    assert st.down == [Resumed(true, 0)] && st.down[1..] == [];
    steps, st := Further(steps, st, Deliver, 10);
  }

  /** A handler that still holds the first connection sends, then the second one is used. */
  lemma StaleSendSkipsPacket()
    ensures exists steps, st :: SkipsPacket(steps, st, 10)
  {
    hide Reaches;
    var steps, st := ResumedOnce();
    steps, st := Further(steps, st, SendSilently(0, [7]), 10);
    assert st.down == [] && st.sent[0] == [[7]];
    steps, st := Further(steps, st, Send([8]), 10);
    assert st.down == [Replay(0, Frame(2, [8]))] && st.down[1..] == [];
    steps, st := Further(steps, st, Deliver, 10);
    assert st.delivered == [Delivery(0, Frame(2, [8]))];
    assert st.delivered[0].frame.sequence == 2;
    assert SkipsPacket(steps, st, 10);
  }
}
