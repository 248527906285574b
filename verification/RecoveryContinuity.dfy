/** Which sessions the client comes back to, over runs in which transports are lost. */
module RecoveryContinuity {
  import opened Primitives
  import opened Recovery
  import opened RecoveryProofs
  import opened RecoveryTheorems
  import opened RecoveryLoss
  import opened RecoverySilence

  // ---- after one loss

  /** Some continuation has the client ask for `s`. */
  ghost predicate AskedAgain(st: State, s: SessionId, max: nat) {
    exists steps :: Run(st, steps, max).Some? && Asks(Run(st, steps, max).value, s)
  }

  ghost predicate Asks(st: State, s: SessionId) {
    exists i :: 0 <= i < |st.up| && st.up[i].id == s
  }

  /** While a recovery is outstanding, losing the transport gives up the session that was asked for, and all of its frames. */
  lemma AbandonedForGood(st: State, now: int, grace: nat, steps: seq<Step>, max: nat)
    requires Invariant(st, max) && st.attached.Some? && st.client.pending.Some?
    requires Run(AfterDisconnect(st, now, grace), steps, max).Some?
    ensures var s := st.client.pending.value;
            var end := Run(AfterDisconnect(st, now, grace), steps, max).value;
            && !Asks(end, s) && end.client.sessionId != Some(s) && end.attached != Some(s)
            && forall k :: Received(end, s, k) <==> Received(st, s, k)
  {
    hide Run, Received;
    LossOrphans(st, now, grace, max);
    OrphanedForGood(AfterDisconnect(st, now, grace), steps, st.client.pending.value, max);
  }

  /** After a lost transport the client can ask for the session it was counting for if and only if no recovery was outstanding. */
  lemma AskedAgainIff(st: State, now: int, grace: nat, max: nat)
    requires Invariant(st, max) && st.attached.Some? && Home(st.client).Some?
    ensures AskedAgain(AfterDisconnect(st, now, grace), Home(st.client).value, max) <==> st.client.pending.None?
  {
    hide Run;
    var gone, s := AfterDisconnect(st, now, grace), Home(st.client).value;
    if st.client.pending.None? {
      assert Run(gone, [], max) == Some(gone) by { RunNothing(gone, max); }
      var steps, back := Extended(gone, [], gone, Connect, max);
      steps, back := Extended(gone, steps, back, Deliver, max);
      assert back.up[0].id == s;
    } else {
      forall steps | Run(gone, steps, max).Some? ensures !Asks(Run(gone, steps, max).value, s) {
        AbandonedForGood(st, now, grace, steps, max);
      }
    }
  }

  /** If RESUMED(true) itself is lost, the client names a session that the server has deleted, and is refused. */
  lemma LossOfAnswerIsRefused(st: State, now: int, grace: nat, later: int, authorized: bool, max: nat)
    requires Invariant(st, max) && Recovering(st)
    ensures var back := Reconnected(st, now, grace);
            back.up != [] && back.attached.Some? && AfterAnswer(back, later, authorized).down == [Resumed(false, 0)]
  {
    hide InFlight, DeliveredInOrder, Retains;
    var back := Reconnected(st, now, grace);
    assert back.down == [];
    assert back.up[0].id == st.client.sessionId.value && st.client.sessionId.value !in back.sessions;
  }

  // ---- over whole runs

  /** Every disconnect finds no recovery outstanding. */
  predicate Continuous(st: State, steps: seq<Step>, max: nat)
    decreases |steps|
  {
    if steps == [] || !Enabled(st, steps[0]) then true
    else (steps[0].Disconnect? ==> st.client.pending.None?) && Continuous(After(st, steps[0], max), steps[1..], max)
  }

  /** Sessions that the client counted for are its home or were refused; only an outstanding recovery can be refused. */
  ghost predicate Continues(st: State) {
    && (forall s :: s in st.held ==> s in st.refused || Home(st.client) == Some(s))
    && (Home(st.client).Some? ==> Home(st.client).value in st.held)
    && (forall i :: 0 <= i < |st.delivered| ==> st.delivered[i].session in st.held)
    && (st.client.pending.Some? ==> st.attached.Some?)
    && forall i :: 0 <= i < |st.down| ==> Expected(st, st.down[i])
  }

  ghost predicate Expected(st: State, message: Message) {
    match message
    case Hello(_) => st.client.pending.None?
    case Replay(_, _) => true
    case Resumed(recovered, _) => !recovered ==> st.client.pending.Some? && st.client.pending.value in st.refused
  }

  lemma ContinuesDeliver(st: State, max: nat)
    requires Invariant(st, max) && Continues(st) && st.down != []
    ensures Continues(AfterDeliver(st))
  {
    hide ServerInvariant, ClientInvariant, InFlight;
    var next := AfterDeliver(st);
    assert Expected(st, st.down[0]);
    match st.down[0]
    case Hello(_) => HelloContinues(st, max);
    case Replay(_, _) => ReplayContinues(st, max);
    case Resumed(_, _) => ResumedContinues(st, max);
  }

  lemma HelloContinues(st: State, max: nat)
    requires Invariant(st, max) && Continues(st) && st.down != [] && st.down[0].Hello?
    ensures Continues(AfterDeliver(st))
  {
    hide ServerInvariant, ClientInvariant, InFlight;
    var next := AfterDeliver(st);
    assert Expected(st, st.down[0]);
    assert Greeting(st);
    assert forall i :: 0 <= i < |next.down| ==> next.down[i] == st.down[1..][i] && next.down[i].Replay?;
  }

  lemma ReplayContinues(st: State, max: nat)
    requires Invariant(st, max) && Continues(st) && st.down != [] && st.down[0].Replay?
    ensures Continues(AfterDeliver(st))
  {
    hide ServerInvariant, ClientInvariant, InFlight;
    var next := AfterDeliver(st);
    var a := st.attached.value;
    var from: nat :| Follows(st, a, st.client.last, from);
    ReplayFollows(st, next, a, from);
    assert Home(st.client) == Some(a);
    forall i | 0 <= i < |next.down| ensures Expected(next, next.down[i]) {
      assert next.down[i] == st.down[i + 1] && Expected(st, st.down[i + 1]);
    }
    forall i | 0 <= i < |next.delivered| ensures next.delivered[i].session in next.held {
      if i < |st.delivered| {
        assert next.delivered[i] == st.delivered[i];
      }
    }
  }

  lemma ResumedContinues(st: State, max: nat)
    requires Invariant(st, max) && Continues(st) && st.down != [] && st.down[0].Resumed?
    ensures Continues(AfterDeliver(st))
  {
    hide ServerInvariant, ClientInvariant, InFlight;
    var next := AfterDeliver(st);
    assert Expected(st, st.down[0]);
    assert OnlyReplays(st.down[1..]) by { NothingBehindAnswer(st, max); }
    assert forall i :: 0 <= i < |next.down| ==> next.down[i] == st.down[1..][i] && next.down[i].Replay?;
  }

  lemma NothingBehindAnswer(st: State, max: nat)
    requires Invariant(st, max) && st.down != [] && st.down[0].Resumed?
    ensures OnlyReplays(st.down[1..]) && (Recovering(st) || Refused(st))
  {
    hide ServerInvariant, ClientInvariant, InFlight;
    if Recovering(st) {
      AnswerBehind(st.down);
    }
  }

  lemma ContinuesStep(st: State, step: Step, max: nat)
    requires Invariant(st, max) && Continues(st) && Enabled(st, step) && (step.Disconnect? ==> st.client.pending.None?)
    ensures Continues(After(st, step, max))
  {
    hide ServerInvariant, ClientInvariant, InFlight, AfterDeliver, AfterAnswer;
    match step
    case Deliver => ContinuesDeliver(st, max);
    case Answer(now, authorized) => ContinuesAnswer(st, now, authorized, max);
    case _ => ContinuesElse(st, step, max);
  }

  lemma ContinuesElse(st: State, step: Step, max: nat)
    requires Invariant(st, max) && Continues(st) && Enabled(st, step) && (step.Disconnect? ==> st.client.pending.None?)
    requires !step.Deliver? && !step.Answer?
    ensures Continues(After(st, step, max))
  {
    hide Invariant, Push;
    var next := After(st, step, max);
    forall i | 0 <= i < |next.down| ensures Expected(next, next.down[i]) {
      if i < |st.down| && next.down[i] == st.down[i] {
        assert Expected(st, st.down[i]);
      }
    }
  }

  lemma ContinuesAnswer(st: State, now: int, authorized: bool, max: nat)
    requires Invariant(st, max) && Continues(st) && st.up != [] && st.attached.Some?
    ensures Continues(AfterAnswer(st, now, authorized))
  {
    hide Missed, Evicted;
    OnlyAsking(st, max);
  }

  lemma {:induction false} ContinuousKeeps(st: State, steps: seq<Step>, max: nat)
    requires Invariant(st, max) && Continues(st) && Continuous(st, steps, max) && Run(st, steps, max).Some?
    ensures Invariant(Run(st, steps, max).value, max) && Continues(Run(st, steps, max).value)
    decreases |steps|
  {
    hide Invariant, Continues, After, Enabled;
    if steps != [] {
      StepKeeps(st, steps[0], max);
      ContinuesStep(st, steps[0], max);
      ContinuousKeeps(After(st, steps[0], max), steps[1..], max);
    }
  }

  /** The client has every number of the session, except those evicted before it asked and those sent silently since. */
  ghost predicate Complete(st: State, s: SessionId) {
    forall k: nat :: Received(st, s, k) <==> 1 <= k <= |st.Sent(s)| && k !in st.Lost(s) && k !in st.Silent(s)
  }

  /**
   * Over every run in which transports are lost only while no recovery is outstanding: once nothing is on the way, every
   * session that the client ever counted for was refused to it (because it was unknown, expired or not authorized) or is
   * complete, and everything delivered is of such a session.
   */
  lemma EverySessionIsAccounted(steps: seq<Step>, max: nat)
    requires Continuous(INITIAL, steps, max) && Run(INITIAL, steps, max).Some?
    requires Drained(Run(INITIAL, steps, max).value)
    ensures var st := Run(INITIAL, steps, max).value;
            && (forall s :: s in st.held ==> s in st.refused || (st.attached == Some(s) && Complete(st, s)))
            && st.attached.value in st.held && forall i :: 0 <= i < |st.delivered| ==> st.delivered[i].session in st.held
  {
    hide Run, Continuous, Invariant, Received;
    InitialInvariant(max);
    ContinuousKeeps(INITIAL, steps, max);
    DrainedIsComplete(Run(INITIAL, steps, max).value, max);
  }

  // ---- an orderly run that gives up a session with a retained packet

  /** The client was told that its recovery succeeded; a packet of its first session is retained, not evicted, and out of reach. */
  ghost predicate GivesUpPacket(steps: seq<Step>, st: State, max: nat) {
    && Reaches(steps, max, st) && Drained(st) && st.client == Client(Some(1), 0, None)
    && 0 in st.held && 0 !in st.refused && 0 in st.sessions && st.sessions[0].frames == [Frame(1, [7])]
    && st.Lost(0) == {} && st.Silent(0) == {} && !Received(st, 0, 1) && Orphaned(st, 0)
  }

  /** The transport is lost for the second time before RESUME is answered; the client has no count yet. */
  lemma GivenUp() returns (steps: seq<Step>, st: State)
    ensures Reaches(steps, 10, st) && st.attached.None? && st.client == Client(Some(1), 0, Some(0)) && st.down == [] && st.up == []
    ensures st.held == {0} && st.refused == {} && st.lost == map[] && st.silent == map[] && st.delivered == [] && st.unused == 2
    ensures 0 in st.sessions && st.sessions[0] == Session(1, [Frame(1, [7])], At(60))
    ensures 1 in st.sessions && st.sessions[1] == Session(0, [], At(60))
  {
    hide Reaches;
    Start(10);
    steps, st := Further([], INITIAL, Connect, 10);
    assert st.down[1..] == [];
    steps, st := Further(steps, st, Deliver, 10);
    steps, st := Further(steps, st, Disconnect(0, 60), 10);
    steps, st := Further(steps, st, SendSilently(0, [7]), 10);
    assert st.sessions[0] == Session(1, [Frame(1, [7])], At(60));
    steps, st := Further(steps, st, Connect, 10);
    assert st.down[1..] == [];
    steps, st := Further(steps, st, Deliver, 10);
    steps, st := Further(steps, st, Disconnect(0, 60), 10);
  }

  lemma OrderlyRunGivesUpPacket()
    ensures exists steps, st :: GivesUpPacket(steps, st, 10)
  {
    hide Reaches;
    var steps, st := GivenUp();
    steps, st := Further(steps, st, Connect, 10);
    assert st.down[1..] == [];
    steps, st := Further(steps, st, Deliver, 10);
    assert st.up == [Resume(1, 0)] && st.up[1..] == [];
    steps, st := Further(steps, st, Answer(0, true), 10);
    assert st.down == [Resumed(true, 0)] && st.down[1..] == [];
    steps, st := Further(steps, st, Deliver, 10);
    assert GivesUpPacket(steps, st, 10);
  }
}
