/** Who may take a session over, and what follows for its frames. */
module RecoveryAdmission {
  import opened Primitives
  import opened Recovery
  import opened RecoveryProofs
  import opened RecoveryTheorems
  import opened RecoverySilence

  /** The answer is RESUMED(false), and neither a session nor the attachment changed. */
  ghost predicate Refuses(st: State, now: int, authorized: bool)
    requires st.up != [] && st.attached.Some?
  {
    var next := AfterAnswer(st, now, authorized);
    next.down == st.down + [Resumed(false, 0)] && next.sessions == st.sessions && next.attached == st.attached
  }

  /** The session moves to the connection that asked: all of its frames are kept and it stops expiring; that connection's own session goes. */
  ghost predicate MovesSession(st: State, now: int, authorized: bool)
    requires st.up != [] && st.attached.Some?
  {
    var next, id := AfterAnswer(st, now, authorized), st.up[0].id;
    && next.attached == Some(id) && id in st.sessions && id in next.sessions
    && next.sessions[id] == Session(st.sessions[id].sequence, st.sessions[id].frames, Never)
    && (forall s :: s in next.sessions <==> s == id || (s in st.sessions && s != st.attached.value))
    && (forall s :: s in next.sessions && s != id ==> next.sessions[s] == st.sessions[s])
  }

  /** A RESUME is refused if and only if the session is unknown, has expired, or is not authorized; any other one moves the session. */
  lemma RefusedIff(st: State, now: int, authorized: bool)
    requires st.up != [] && st.attached.Some?
    ensures var id := st.up[0].id;
            Refuses(st, now, authorized) <==>
            id !in st.sessions || (st.sessions[id].expiresAt.At? && st.sessions[id].expiresAt.time < now) || !authorized
    ensures !Refuses(st, now, authorized) ==> MovesSession(st, now, authorized)
  {
    hide Missed, Evicted;
    var next := AfterAnswer(st, now, authorized);
    if next.down != st.down + [Resumed(false, 0)] {
    } else {
      assert next.down[|next.down| - 1] == Resumed(false, 0);
    }
  }

  /** The step answers a RESUME of `s` that is authorized and in time. */
  predicate Admits(st: State, step: Step, s: SessionId) {
    && step.Answer? && st.up != [] && st.up[0].id == s && step.authorized
    && (s in st.sessions && st.sessions[s].expiresAt.At? ==> step.now <= st.sessions[s].expiresAt.time)
  }

  /** Every RESUME of `s` in a run is unauthorized or comes after its session expired. */
  predicate NeverAdmitted(st: State, steps: seq<Step>, s: SessionId, max: nat)
    decreases |steps|
  {
    if steps == [] || !Enabled(st, steps[0]) then true
    else !Admits(st, steps[0], s) && NeverAdmitted(After(st, steps[0], max), steps[1..], s, max)
  }

  /** The step delivers a frame of `s` on a connection that opened with another session. */
  predicate DeliversElsewhere(st: State, step: Step, s: SessionId) {
    step.Deliver? && st.down != [] && st.down[0].Replay? && st.down[0].origin == s && st.original != Some(s)
  }

  predicate OnlyToOpener(st: State, steps: seq<Step>, s: SessionId, max: nat)
    decreases |steps|
  {
    if steps == [] || !Enabled(st, steps[0]) then true
    else !DeliversElsewhere(st, steps[0], s) && OnlyToOpener(After(st, steps[0], max), steps[1..], s, max)
  }

  /** Frames of `s` are on the way only to the connection that opened it. */
  ghost predicate Sealed(st: State, s: SessionId) {
    && (st.attached == Some(s) ==> st.original == Some(s))
    && (st.original.Some? ==> st.original.value < st.unused && st.attached.Some?)
    && forall i :: 0 <= i < |st.down| && st.down[i].Replay? && st.down[i].origin == s ==> st.original == Some(s)
  }

  lemma SealedStep(st: State, step: Step, s: SessionId, max: nat)
    requires Sealed(st, s) && Enabled(st, step) && !Admits(st, step, s)
    ensures Sealed(After(st, step, max), s) && !DeliversElsewhere(st, step, s)
  {
    hide AfterAnswer, Push;
    if step.Answer? {
      SealedAnswer(st, step.now, step.authorized, s);
    } else if step.Deliver? {
      assert forall i :: 0 <= i < |st.down[1..]| ==> st.down[1..][i] == st.down[i + 1];
    }
  }

  lemma SealedAnswer(st: State, now: int, authorized: bool, s: SessionId)
    requires Sealed(st, s) && st.up != [] && st.attached.Some? && !Admits(st, Answer(now, authorized), s)
    ensures Sealed(AfterAnswer(st, now, authorized), s)
  {
    hide Missed, Evicted;
    RefusedIff(st, now, authorized);
  }

  lemma {:induction false} SealedRun(st: State, steps: seq<Step>, s: SessionId, max: nat)
    requires Sealed(st, s) && NeverAdmitted(st, steps, s, max)
    ensures OnlyToOpener(st, steps, s, max)
    decreases |steps|
  {
    hide After, Enabled, Sealed, Admits, DeliversElsewhere;
    if steps != [] && Enabled(st, steps[0]) {
      SealedStep(st, steps[0], s, max);
      SealedRun(After(st, steps[0], max), steps[1..], s, max);
    }
  }

  /**
   * Over every run, orderly or not: if every RESUME of a session is unauthorized or too late, its frames are delivered
   * only on the connection that opened it.
   */
  lemma UnauthorizedGetsNothing(steps: seq<Step>, s: SessionId, max: nat)
    requires NeverAdmitted(INITIAL, steps, s, max)
    ensures OnlyToOpener(INITIAL, steps, s, max)
  {
    SealedRun(INITIAL, steps, s, max);
  }

  /** Once that connection is gone, nothing more of the session is received. */
  lemma {:induction false} SealedForGood(st: State, steps: seq<Step>, s: SessionId, max: nat)
    requires Sealed(st, s) && st.original != Some(s) && s < st.unused
    requires NeverAdmitted(st, steps, s, max) && Run(st, steps, max).Some?
    ensures forall k :: Received(Run(st, steps, max).value, s, k) <==> Received(st, s, k)
    decreases |steps|
  {
    hide After, Enabled, Received, Sealed, Admits;
    if steps != [] {
      SealedStep(st, steps[0], s, max);
      SealedReceives(st, steps[0], s, max);
      SealedForGood(After(st, steps[0], max), steps[1..], s, max);
    }
  }

  lemma SealedReceives(st: State, step: Step, s: SessionId, max: nat)
    requires Sealed(st, s) && st.original != Some(s) && s < st.unused && Enabled(st, step)
    ensures var next := After(st, step, max); next.original != Some(s) && s < next.unused
    ensures forall k :: Received(After(st, step, max), s, k) <==> Received(st, s, k)
  {
    hide AfterAnswer, Push, Received;
    var next := After(st, step, max);
    if step.Answer? {
      SealedAnswerKeeps(st, step.now, step.authorized, s);
    }
    if next.delivered == st.delivered {
      SameReceived(st, next, s);
    } else {
      forall k ensures Received(next, s, k) <==> Received(st, s, k) {
        ReceivedOneMore(st, next, Delivery(st.down[0].origin, st.down[0].frame), s, k);
      }
    }
  }

  lemma SealedAnswerKeeps(st: State, now: int, authorized: bool, s: SessionId)
    requires st.up != [] && st.attached.Some?
    ensures var next := AfterAnswer(st, now, authorized);
            next.delivered == st.delivered && next.original == st.original && next.unused == st.unused
  {
    hide Missed, Evicted;
  }

  /** A lost connection can be replaced, by whom it may, until the grace period ends, and no later. */
  lemma GraceIff(st: State, now: int, grace: nat, later: int, authorized: bool)
    requires st.attached.Some? && st.attached.value in st.sessions
    requires Reconnected(st, now, grace).up != [] && Reconnected(st, now, grace).up[0].id == st.attached.value
    requires st.attached.value < st.unused
    ensures var back := Reconnected(st, now, grace);
            back.attached.Some? && (Refuses(back, later, authorized) <==> later > now + grace || !authorized)
  {
    hide Missed, Evicted;
    RefusedIff(Reconnected(st, now, grace), later, authorized);
  }

  /** Before its time, or while it is held, a session is not forgotten. */
  lemma ForgottenIff(st: State, id: SessionId, now: int, max: nat)
    ensures Enabled(st, Expire(id, now)) <==>
            id in st.sessions && st.attached != Some(id) && st.sessions[id].expiresAt.At? && now >= st.sessions[id].expiresAt.time
    ensures Enabled(st, Expire(id, now)) ==>
              forall s :: s in After(st, Expire(id, now), max).sessions <==> s in st.sessions && s != id
  {
  }

  // ---- what can happen when

  /** A packet can be sent as soon as a first connection is open, and on a replacement once its RESUME is answered. */
  lemma SendIff(st: State, data: Payload)
    ensures Enabled(st, Send(data)) <==>
            && st.attached.Some? && st.attached.value in st.sessions && st.up == []
            && (st.client.sessionId.None? || forall message :: message in st.down ==> !message.Hello?)
    ensures forall id :: Enabled(st, SendSilently(id, data)) <==>
              id in st.sessions && (st.attached == Some(id) ==> Enabled(st, Send(data)))
  {
    assert forall i :: 0 <= i < |st.down| ==> st.down[i] in st.down;
  }

  /** Everything else is up to the transport, the peer and the clock. */
  lemma OthersIff(st: State, now: int, grace: nat, authorized: bool)
    ensures Enabled(st, Connect) <==> st.attached.None?
    ensures Enabled(st, Deliver) <==> st.down != []
    ensures Enabled(st, Answer(now, authorized)) <==> st.up != [] && st.attached.Some?
    ensures Enabled(st, Disconnect(now, grace)) <==> st.attached.Some? && st.attached.value in st.sessions
  {
  }
}
