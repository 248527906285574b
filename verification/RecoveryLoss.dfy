/** What follows from losing a transport before the recovery on it was answered. */
module RecoveryLoss {
  import opened Primitives
  import opened Recovery
  import opened RecoveryTheorems

  /** Nothing is on the way, the client is where the server is, and a number that was sent there is neither received nor evicted. */
  ghost predicate LosesFrame(st: State, s: SessionId) {
    && Drained(st) && st.attached == Some(s) && st.client.sessionId == Some(s)
    && |st.Sent(s)| >= 1 && !Received(st, s, 1) && 1 !in st.Lost(s)
  }

  /** The client counts for another session: number 1 of this one is missing, and nothing on the way will bring it. */
  ghost predicate Miscounts(st: State, s: SessionId) {
    && st.attached == Some(s) && s in st.sessions && st.up == [] && st.client.last >= 1
    && !Received(st, s, 1) && 1 !in st.Lost(s)
    && (forall i :: 0 <= i < |st.down| ==> Later(st.down[i]))
    && if st.client.pending.Some? then st.client.pending == Some(s) && exists i :: 0 <= i < |st.down| && st.down[i].Resumed?
       else st.client.sessionId == Some(s)
  }

  /** The transport is lost once, at the beginning, and nothing is sent silently. */
  predicate LostOnce(steps: seq<Step>, now: int, grace: nat) {
    steps != [] && steps[0] == Disconnect(now, grace) && forall i :: 1 <= i < |steps| ==> !steps[i].Disconnect? && !steps[i].SendSilently?
  }

  predicate Later(message: Message) {
    match message
    case Hello(_) => false
    case Replay(_, frame) => frame.sequence > 1
    case Resumed(recovered, _) => recovered
  }

  lemma Extended(base: State, steps: seq<Step>, st: State, step: Step, max: nat) returns (longer: seq<Step>, next: State)
    requires Run(base, steps, max) == Some(st) && Enabled(st, step)
    ensures longer == steps + [step] && next == After(st, step, max) && Run(base, longer, max) == Some(next)
  {
    hide After, Enabled;
    RunThen(base, steps, step, max);
    longer, next := steps + [step], After(st, step, max);
  }

  lemma DeliveryKeepsMissing(st: State, s: SessionId)
    requires Miscounts(st, s) && st.down != []
    ensures Miscounts(AfterDeliver(st), s)
    ensures AfterDeliver(st).sent == st.sent && AfterDeliver(st).sessions == st.sessions
  {
    var next := AfterDeliver(st);
    assert Later(st.down[0]);
    assert forall i :: 0 <= i < |next.down| ==> next.down[i] == st.down[i + 1];
    assert !Received(next, s, 1);
    if st.client.pending.Some? && !st.down[0].Resumed? {
      var i :| 0 <= i < |st.down| && st.down[i].Resumed?;
      assert next.down[i - 1].Resumed?;
    }
  }

  /** Everything on the way can be delivered. */
  lemma {:induction false} Drain(base: State, steps: seq<Step>, st: State, s: SessionId, max: nat) returns (longer: seq<Step>, end: State)
    requires Run(base, steps, max) == Some(st) && Miscounts(st, s)
    ensures Run(base, longer, max) == Some(end) && Miscounts(end, s) && end.down == []
    ensures forall now, grace :: LostOnce(steps, now, grace) ==> LostOnce(longer, now, grace)
    ensures end.sent == st.sent && end.sessions == st.sessions
    decreases |st.down|
  {
    if st.down == [] {
      longer, end := steps, st;
    } else {
      DeliveryKeepsMissing(st, s);
      var more, next := Extended(base, steps, st, Deliver, max);
      longer, end := Drain(base, more, next, s, max);
    }
  }

  /** The client is back and asks for its session with the count of another one. */
  ghost predicate AsksWrongly(st: State, named: SessionId, last: nat) {
    && st.attached.Some? && st.attached.value != named && named in st.sessions && st.down == []
    && st.up == [Resume(named, last)] && st.client == Client(st.attached, last, Some(named)) && last >= 1
    && !Received(st, named, 1) && st.Lost(named) == {}
  }

  lemma Reconnects(st: State, now: int, grace: nat, max: nat) returns (steps: seq<Step>, back: State)
    requires st.attached.Some? && st.client.sessionId == st.attached && st.attached.value in st.sessions && st.attached.value < st.unused
    requires Untouched(st, st.attached.value) && st.client.last > 0
    ensures var named := st.attached.value;
            && LostOnce(steps, now, grace) && Run(st, steps, max) == Some(back) && AsksWrongly(back, named, st.client.last)
            && back.sessions[named] == st.sessions[named].(expiresAt := At(now + grace)) && back.Sent(named) == st.Sent(named)
  {
    hide Run;
    assert Run(st, [], max) == Some(st) by { RunNothing(st, max); }
    steps, back := Extended(st, [], st, Disconnect(now, grace), max);
    steps, back := Extended(st, steps, back, Connect, max);
    assert back.down == [Hello(st.unused)] && back.down[1..] == [];
    steps, back := Extended(st, steps, back, Deliver, max);
    assert back.delivered == st.delivered && back.lost == st.lost && back.sent == st.sent;
  }

  lemma AnswerMiscounts(st: State, named: SessionId, last: nat, now: int)
    requires AsksWrongly(st, named, last) && Resumable(st.sessions, named, now, true)
    ensures Miscounts(AfterAnswer(st, now, true), named)
  {
    hide Missed;
    var next, missed := AfterAnswer(st, now, true), Missed(st.sessions[named].frames, last);
    assert st.up[1..] == [] && next.down == Replays(named, missed) + [Resumed(true, |missed|)];
    MissedIsLater(st.sessions[named].frames, last);
    assert next.down[|missed|].Resumed?;
    assert next.delivered == st.delivered;
    assert Received(next, named, 1) == Received(st, named, 1);
    assert next.Lost(named) == Evicted(st.sessions[named], last);
  }

  /** The transport is lost, and the client comes back with the wrong count. */
  lemma ComesBack(st: State, now: int, grace: nat, max: nat) returns (steps: seq<Step>, back: State)
    requires Invariant(st, max) && (Asking(st) || Refused(st)) && st.client.last > 0
    ensures var named := st.client.sessionId.value;
            && LostOnce(steps, now, grace) && Run(st, steps, max) == Some(back) && Miscounts(back, named)
            && named in st.sessions && back.sessions[named].sequence == st.sessions[named].sequence && back.Sent(named) == st.Sent(named)
  {
    hide Run, InFlight, ServerInvariant, DeliveredInOrder, Miscounts, AfterAnswer;
    var named := st.client.sessionId.value;
    AttachedIsKnown(st, max);
    steps, back := Reconnects(st, now, grace, max);
    AnswerMiscounts(back, named, st.client.last, now);
    var asking := back;
    steps, back := Extended(st, steps, back, Answer(now, true), max);
    AnswerKeepsSession(asking, named, st.client.last, now);
  }

  lemma AnswerKeepsSession(st: State, named: SessionId, last: nat, now: int)
    requires AsksWrongly(st, named, last) && Resumable(st.sessions, named, now, true)
    ensures var next := AfterAnswer(st, now, true);
            named in next.sessions && next.sessions[named].sequence == st.sessions[named].sequence && next.Sent(named) == st.Sent(named)
  {
  }

  lemma AttachedIsKnown(st: State, max: nat)
    requires ServerInvariant(st, max) && st.attached.Some?
    ensures st.attached.value in st.sessions && st.attached.value < st.unused
    ensures st.sessions[st.attached.value].sequence == |st.Sent(st.attached.value)|
  {
  }

  lemma {:induction false} MissedIsLater(frames: seq<Frame>, last: nat)
    ensures forall i :: 0 <= i < |Missed(frames, last)| ==> Missed(frames, last)[i].sequence > last
  {
    if frames != [] {
      MissedIsLater(frames[1..], last);
    }
  }

  /** One packet on the healthy connection, if there was none before: it arrives and is dropped. */
  lemma FirstIsDropped(base: State, steps: seq<Step>, st: State, s: SessionId, data: Payload, max: nat) returns (longer: seq<Step>, end: State)
    requires Run(base, steps, max) == Some(st) && Miscounts(st, s) && st.down == []
    requires st.Sent(s) == [] && st.sessions[s].sequence == 0
    ensures Run(base, longer, max) == Some(end) && LosesFrame(end, s)
    ensures forall now, grace :: LostOnce(steps, now, grace) ==> LostOnce(longer, now, grace)
  {
    hide Run;
    assert st.client.pending.None?;
    var more, sent := Extended(base, steps, st, Send(data), max);
    assert sent.down == [Replay(s, Frame(1, data))] && sent.down[1..] == [];
    assert !Fresh(sent.client, Frame(1, data));
    longer, end := Extended(base, more, sent, Deliver, max);
    assert end.delivered == st.delivered && end.lost == st.lost;
    assert Received(end, s, 1) == Received(st, s, 1);
  }

  /**
   * From every state in which RESUME or its refusal is on the way and the client has a count: if the transport is lost,
   * there is a continuation without further losses, in which the recovery succeeds, after which a packet of the
   * client's session was never evicted, never delivered, and never will be.
   */
  lemma LossBeforeAnswerLosesFrame(st: State, now: int, grace: nat, data: Payload, max: nat) returns (steps: seq<Step>)
    requires Invariant(st, max) && (Asking(st) || Refused(st)) && st.client.last > 0
    ensures LostOnce(steps, now, grace)
    ensures Run(st, steps, max).Some? && LosesFrame(Run(st, steps, max).value, st.client.sessionId.value)
  {
    hide Run, InFlight, ClientInvariant;
    var named := st.client.sessionId.value;
    AttachedIsKnown(st, max);
    var back, end;
    steps, back := ComesBack(st, now, grace, max);
    steps, end := Drain(st, steps, back, named, max);
    if end.Sent(named) == [] {
      steps, end := FirstIsDropped(st, steps, end, named, data, max);
    }
  }
}
