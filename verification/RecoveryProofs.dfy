/** Every orderly run keeps the recovery invariant; what it means for the client; and why disorderly runs lose packets. */
module RecoveryProofs {
  import opened Primitives
  import opened Recovery

  // ---- the replay buffer

  lemma SuffixTail(sent: seq<Payload>, count: nat)
    requires 0 < count <= |sent|
    ensures Suffix(sent, count)[1..] == Suffix(sent, count - 1)
    ensures Suffix(sent, count)[0] == Frame(|sent| - count + 1, sent[|sent| - count])
  {
  }

  /** Asking for everything after `last` finds exactly the last `min(sent - last, retained)` frames. */
  lemma {:induction false} MissedOfSuffix(sent: seq<Payload>, count: nat, last: nat)
    requires count <= |sent|
    ensures Missed(Suffix(sent, count), last) == Suffix(sent, if last >= |sent| then 0 else Min(count, |sent| - last))
    decreases count
  {
    hide Suffix;
    if count > 0 {
      SuffixTail(sent, count);
      assert Suffix(sent, count) == [Suffix(sent, count)[0]] + Suffix(sent, count)[1..];
      MissedOfSuffix(sent, count - 1, last);
    }
  }

  /** A push keeps the session in agreement with what was sent. */
  lemma PushRetains(session: Session, sent: seq<Payload>, data: Payload, max: nat)
    requires Retains(session, sent, max)
    ensures Retains(Push(session, data, max), sent + [data], max)
    ensures Push(session, data, max).sequence == |sent| + 1
  {
    var count, frame := Min(|sent|, max), Frame(|sent| + 1, data);
    assert Suffix(sent, count) + [frame] == Suffix(sent + [data], count + 1);
    if count + 1 > max {
      assert Suffix(sent + [data], count + 1)[1..] == Suffix(sent + [data], count);
    }
  }

  // ---- frames on the way

  /** Where the count of frames on the way stands after a message. */
  function Past(message: Message, from: nat): nat {
    if message.Replay? then message.frame.sequence else from
  }

  lemma {:induction false} InFlightAppend(down: seq<Message>, s: SessionId, from: nat, sent: seq<Payload>, silent: set<nat>, data: Payload)
    requires InFlight(down, s, from, sent, silent) && from <= |sent| && |sent| + 1 !in silent
    ensures InFlight(down + [Replay(s, Frame(|sent| + 1, data))], s, from, sent + [data], silent)
    decreases |down|
  {
    var next := down + [Replay(s, Frame(|sent| + 1, data))];
    if down == [] {
      assert next[1..] == [];
    } else {
      assert next[1..] == down[1..] + [Replay(s, Frame(|sent| + 1, data))];
      InFlightAppend(down[1..], s, Past(down[0], from), sent, silent, data);
    }
  }

  /** A number whose frame is not put on the way is silent, and those on the way are not. */
  lemma {:induction false} InFlightSilent(down: seq<Message>, s: SessionId, from: nat, sent: seq<Payload>, silent: set<nat>, data: Payload)
    requires InFlight(down, s, from, sent, silent)
    ensures InFlight(down, s, from, sent + [data], silent + {|sent| + 1})
    decreases |down|
  {
    if down != [] {
      InFlightSilent(down[1..], s, Past(down[0], from), sent, silent, data);
    }
  }

  lemma {:induction false} InFlightOfSuffix(s: SessionId, sent: seq<Payload>, count: nat, last: Message, silent: set<nat>)
    requires count <= |sent| && last.Resumed?
    requires forall k :: k in silent ==> k <= |sent| - count
    ensures InFlight(Replays(s, Suffix(sent, count)) + [last], s, |sent| - count, sent, silent)
    decreases count
  {
    var down := Replays(s, Suffix(sent, count)) + [last];
    if count == 0 {
      assert down[1..] == [];
    } else {
      SuffixTail(sent, count);
      assert down[1..] == Replays(s, Suffix(sent, count - 1)) + [last];
      InFlightOfSuffix(s, sent, count - 1, last, silent);
    }
  }

  // ---- each step keeps the invariant

  /** Nothing the client knows is changed. */
  ghost predicate SameClientSide(a: State, b: State) {
    a.client == b.client && a.lost == b.lost && a.delivered == b.delivered && a.unused <= b.unused
    && (forall s: SessionId :: s < a.unused ==> |a.Sent(s)| <= |b.Sent(s)| && a.Sent(s) == b.Sent(s)[..|a.Sent(s)|])
    && forall s: SessionId, k :: s < a.unused && k <= |a.Sent(s)| ==> (k in a.Silent(s) <==> k in b.Silent(s))
  }

  lemma ClientSideKept(a: State, b: State)
    requires ClientInvariant(a) && SameClientSide(a, b)
    requires forall s: SessionId :: s >= a.unused ==> Untouched(a, s)
    ensures ClientInvariant(b)
  {
    forall i | 0 <= i < |b.delivered|
      ensures var d := b.delivered[i];
              1 <= d.frame.sequence <= |b.Sent(d.session)| && d.frame.data == b.Sent(d.session)[d.frame.sequence - 1]
    {
      var d := a.delivered[i];
      assert !Untouched(a, d.session);
      assert a.Sent(d.session)[d.frame.sequence - 1] == b.Sent(d.session)[d.frame.sequence - 1];
    }
    assert forall s, k :: Received(a, s, k) <==> Received(b, s, k);
  }

  /** Nothing was sent or delivered; sessions may be forgotten or expire at another time. */
  lemma ServerKept(st: State, next: State, max: nat)
    requires ServerInvariant(st, max) && next.unused == st.unused && (next.attached.Some? ==> next.attached.value in next.sessions)
    requires next.sent == st.sent && next.lost == st.lost && next.silent == st.silent && next.delivered == st.delivered
    requires forall s :: s in next.sessions ==> s in st.sessions && next.sessions[s].(expiresAt := Never) == st.sessions[s].(expiresAt := Never)
    ensures ServerInvariant(next, max)
    ensures forall s :: next.Sent(s) == st.Sent(s) && next.Lost(s) == st.Lost(s) && next.Silent(s) == st.Silent(s)
    ensures forall s, k :: Received(next, s, k) <==> Received(st, s, k)
  {
    hide Suffix;
    assert forall s :: next.Sent(s) == st.Sent(s) && next.Lost(s) == st.Lost(s) && next.Silent(s) == st.Silent(s);
    LossesKept(st, next, max);
    forall s | s in next.sessions ensures s < next.unused && Retains(next.sessions[s], next.Sent(s), max) {
      var session := st.sessions[s];
      assert Retains(session, st.Sent(s), max);
      assert next.sessions[s].sequence == session.sequence && next.sessions[s].frames == session.frames;
    }
    forall s: SessionId | s >= next.unused ensures next.Sent(s) == [] && Untouched(next, s) {
      assert Untouched(st, s);
    }
  }

  lemma ConnectKeeps(st: State, max: nat)
    requires Invariant(st, max) && Detached(st)
    ensures Invariant(AfterConnect(st), max)
  {
    var next := AfterConnect(st);
    assert forall s :: next.Sent(s) == st.Sent(s) && next.Lost(s) == st.Lost(s) && next.Silent(s) == st.Silent(s);
    assert Untouched(st, st.unused);
    ClientSideKept(st, next);
    LossesKept(st, next, max);
    assert next.down[1..] == [];
    assert Suffix(next.Sent(st.unused), 0) == [];
    assert Greeting(next);
  }

  lemma ExpireKeeps(st: State, id: SessionId, max: nat)
    requires Invariant(st, max) && id in st.sessions && st.attached != Some(id)
    ensures Invariant(st.(sessions := st.sessions - {id}), max)
  {
    hide ClientInvariant, InFlight, Retains;
    var next := st.(sessions := st.sessions - {id});
    ServerKept(st, next, max);
    ClientSideKept(st, next);
    PhaseKept(st, next);
  }

  /** The phase depends only on the transport, the client and what was sent. */
  lemma PhaseKept(st: State, next: State)
    requires st.attached == next.attached && st.down == next.down && st.up == next.up && st.client == next.client
    requires st.sent == next.sent && st.lost == next.lost && st.delivered == next.delivered && st.silent == next.silent
    requires forall s :: s in next.sessions ==> s in st.sessions
    ensures Detached(st) ==> Detached(next)
    ensures Greeting(st) ==> Greeting(next)
    ensures Asking(st) ==> Asking(next)
    ensures Recovering(st) ==> Recovering(next)
    ensures Refused(st) ==> Refused(next)
    ensures Live(st) ==> Live(next)
  {
    assert forall s :: next.Sent(s) == st.Sent(s) && next.Lost(s) == st.Lost(s) && next.Silent(s) == st.Silent(s);
    forall s, last, from ensures Follows(st, s, last, from) <==> Follows(next, s, last, from) {
    }
  }

  lemma DisconnectKeeps(st: State, now: int, grace: nat, max: nat)
    requires Invariant(st, max) && st.attached.Some? && Recovered(st.client)
    ensures Invariant(AfterDisconnect(st, now, grace), max)
  {
    hide ClientInvariant, Retains;
    var next := AfterDisconnect(st, now, grace);
    ServerKept(st, next, max);
    ClientSideKept(st, next);
    assert Detached(next);
  }

  /** `next` is `st` with one more number in session `id`, whether its frame is put on the way or not. */
  ghost predicate IsNumbered(st: State, next: State, id: SessionId, data: Payload, max: nat) {
    && id in st.sessions && next == Numbered(st, id, data, max).(down := next.down, silent := next.silent)
    && (next.silent == st.silent || next.silent == st.silent[id := st.Silent(id) + {st.sessions[id].sequence + 1}])
  }

  lemma NumberedFacts(st: State, next: State, id: SessionId, data: Payload, max: nat)
    requires ServerInvariant(st, max) && IsNumbered(st, next, id, data, max)
    ensures (forall s :: s != id ==> next.Sent(s) == st.Sent(s)) && next.Sent(id) == st.Sent(id) + [data]
    ensures forall s :: next.Lost(s) == st.Lost(s) && (s != id ==> next.Silent(s) == st.Silent(s))
    ensures next.Silent(id) == st.Silent(id) || next.Silent(id) == st.Silent(id) + {|st.Sent(id)| + 1}
    ensures st.sessions[id].sequence == |st.Sent(id)| && |st.Sent(id)| + 1 !in st.Silent(id) && id < st.unused
  {
    assert Retains(st.sessions[id], st.Sent(id), max) && SilentWasSent(st, id);
  }

  lemma NumberedServer(st: State, next: State, id: SessionId, data: Payload, max: nat)
    requires ServerInvariant(st, max) && IsNumbered(st, next, id, data, max)
    ensures ServerInvariant(next, max)
  {
    hide Push, Retains;
    NumberedFacts(st, next, id, data, max);
    PushRetains(st.sessions[id], st.Sent(id), data, max);
    forall s | s in next.sessions ensures s < next.unused && Retains(next.sessions[s], next.Sent(s), max) {
      if s != id {
        assert Retains(st.sessions[s], st.Sent(s), max);
      }
    }
    forall s | s >= next.unused ensures next.Sent(s) == [] && Untouched(next, s) {
      assert Untouched(st, s);
    }
    forall s: SessionId ensures OnlyEvictedIsLost(next, s, max) && SilentWasSent(next, s) {
      assert OnlyEvictedIsLost(st, s, max) && SilentWasSent(st, s);
    }
  }

  lemma NumberedClient(st: State, next: State, id: SessionId, data: Payload, max: nat)
    requires ServerInvariant(st, max) && ClientInvariant(st) && IsNumbered(st, next, id, data, max)
    ensures ClientInvariant(next)
  {
    hide ClientInvariant, Push, Retains;
    NumberedFacts(st, next, id, data, max);
    assert (st.Sent(id) + [data])[..|st.Sent(id)|] == st.Sent(id);
    assert SameClientSide(st, next);
    ClientSideKept(st, next);
  }

  lemma LossesKept(st: State, next: State, max: nat)
    requires ServerInvariant(st, max)
    requires forall s: SessionId :: next.Lost(s) == st.Lost(s) && next.Silent(s) == st.Silent(s) && |st.Sent(s)| <= |next.Sent(s)|
    ensures forall s: SessionId :: OnlyEvictedIsLost(next, s, max) && SilentWasSent(next, s)
  {
    forall s: SessionId ensures OnlyEvictedIsLost(next, s, max) && SilentWasSent(next, s) {
      assert OnlyEvictedIsLost(st, s, max) && SilentWasSent(st, s);
    }
  }

  lemma SendSilentlyKeeps(st: State, id: SessionId, data: Payload, max: nat)
    requires Invariant(st, max) && Enabled(st, SendSilently(id, data))
    ensures Invariant(AfterSilence(st, id, data, max), max)
  {
    hide ServerInvariant, ClientInvariant, InFlight;
    var next := AfterSilence(st, id, data, max);
    NumberedFacts(st, next, id, data, max);
    NumberedServer(st, next, id, data, max);
    NumberedClient(st, next, id, data, max);
    if st.attached == Some(id) {
      SilentPhase(st, next, data);
    } else {
      ElsewherePhase(st, next);
    }
  }

  /** A send to a session that no connection holds. */
  lemma ElsewherePhase(st: State, next: State)
    requires Detached(st) || Greeting(st) || Asking(st) || Recovering(st) || Refused(st) || Live(st)
    requires st.attached == next.attached && st.down == next.down && st.up == next.up && st.client == next.client
    requires st.delivered == next.delivered && forall s :: s in next.sessions <==> s in st.sessions
    requires st.attached.Some? ==>
               var a := st.attached.value; next.Sent(a) == st.Sent(a) && next.Lost(a) == st.Lost(a) && next.Silent(a) == st.Silent(a)
    ensures Detached(next) || Greeting(next) || Asking(next) || Recovering(next) || Refused(next) || Live(next)
  {
    hide InFlight;
    if st.attached.Some? {
      var a := st.attached.value;
      forall last, from | Follows(st, a, last, from) ensures Follows(next, a, last, from) {
      }
      assert Untouched(st, a) ==> Untouched(next, a);
    }
  }

  lemma SilentPhase(st: State, next: State, data: Payload)
    requires Settled(st) && (Greeting(st) || Recovering(st) || Refused(st) || Live(st))
    requires next.attached == st.attached && next.up == st.up && next.client == st.client && next.delivered == st.delivered
    requires next.down == st.down && (forall s :: s in next.sessions <==> s in st.sessions)
    requires var a := st.attached.value;
             next.Sent(a) == st.Sent(a) + [data] && next.Silent(a) == st.Silent(a) + {|st.Sent(a)| + 1} && next.Lost(a) == st.Lost(a)
    ensures Greeting(next) || Recovering(next) || Refused(next) || Live(next)
  {
    hide InFlight;
    var a := st.attached.value;
    if Greeting(st) || Refused(st) {
      InFlightSilent(st.down, a, 0, st.Sent(a), st.Silent(a), data);
      assert Untouched(st, a) ==> Untouched(next, a);
    } else {
      var from: nat :| Follows(st, a, st.client.last, from);
      InFlightSilent(st.down, a, from, st.Sent(a), st.Silent(a), data);
      assert Follows(next, a, next.client.last, from);
    }
  }

  /** A new frame goes behind those on the way. */
  lemma SentFollows(st: State, next: State, a: SessionId, data: Payload)
    requires (exists from: nat :: Follows(st, a, st.client.last, from)) && |st.Sent(a)| + 1 !in st.Silent(a)
    requires next.down == st.down + [Replay(a, Frame(|st.Sent(a)| + 1, data))] && next.Sent(a) == st.Sent(a) + [data]
    requires next.Lost(a) == st.Lost(a) && next.Silent(a) == st.Silent(a)
    ensures exists from: nat :: Follows(next, a, st.client.last, from)
  {
    var from: nat :| Follows(st, a, st.client.last, from);
    InFlightAppend(st.down, a, from, st.Sent(a), st.Silent(a), data);
    assert Follows(next, a, st.client.last, from);
  }

  lemma OnlyReplaysAppend(down: seq<Message>, message: Message, i: nat)
    requires message.Replay? && i <= |down|
    ensures OnlyReplays(down[i..]) <==> OnlyReplays((down + [message])[i..])
  {
    assert (down + [message])[i..] == down[i..] + [message];
    if OnlyReplays(down[i..] + [message]) {
      forall j | 0 <= j < |down[i..]| ensures down[i..][j].Replay? {
        assert (down[i..] + [message])[j].Replay?;
      }
    }
  }

  lemma SendKeeps(st: State, data: Payload, max: nat)
    requires Invariant(st, max) && Settled(st) && st.attached.value in st.sessions
    ensures Invariant(AfterSend(st, data, max), max)
  {
    hide ServerInvariant, ClientInvariant, InFlight;
    var a := st.attached.value;
    var next := AfterSend(st, data, max);
    NumberedFacts(st, next, a, data, max);
    NumberedServer(st, next, a, data, max);
    NumberedClient(st, next, a, data, max);
    SendPhase(st, next, data);
  }

  lemma SendPhase(st: State, next: State, data: Payload)
    requires Settled(st) && (Greeting(st) || Recovering(st) || Refused(st) || Live(st))
    requires next.attached == st.attached && next.up == st.up && next.client == st.client && next.delivered == st.delivered
    requires forall s :: s in next.sessions <==> s in st.sessions
    requires var a := st.attached.value;
             && next.down == st.down + [Replay(a, Frame(|st.Sent(a)| + 1, data))] && next.Sent(a) == st.Sent(a) + [data]
             && next.Lost(a) == st.Lost(a) && next.Silent(a) == st.Silent(a) && |st.Sent(a)| + 1 !in st.Silent(a)
    ensures Greeting(next) || Recovering(next) || Refused(next) || Live(next)
  {
    hide InFlight;
    var a := st.attached.value;
    var message := Replay(a, Frame(|st.Sent(a)| + 1, data));
    if Greeting(st) {
      InFlightAppend(st.down, a, 0, st.Sent(a), st.Silent(a), data);
      OnlyReplaysAppend(st.down, message, 1);
      assert Untouched(next, a);
    } else if Refused(st) {
      InFlightAppend(st.down, a, 0, st.Sent(a), st.Silent(a), data);
      OnlyReplaysAppend(st.down, message, 1);
    } else if Recovering(st) {
      SentFollows(st, next, a, data);
      AnswerBeforeSend(st.down, message);
    } else {
      SentFollows(st, next, a, data);
    }
  }

  /** Answering a RESUME: the buffer is re-sent from the first frame the client lacks; what it no longer holds is lost. */
  lemma AnswerKeeps(st: State, now: int, authorized: bool, max: nat)
    requires Invariant(st, max) && st.up != [] && st.attached.Some?
    ensures Invariant(AfterAnswer(st, now, authorized), max)
  {
    assert Asking(st);
    if Resumable(st.sessions, st.up[0].id, now, authorized) {
      AcceptKeeps(st, now, authorized, max);
    } else {
      RefuseKeeps(st, now, authorized, max);
    }
  }

  lemma RefuseKeeps(st: State, now: int, authorized: bool, max: nat)
    requires Invariant(st, max) && Asking(st) && !Resumable(st.sessions, st.up[0].id, now, authorized)
    ensures Invariant(AfterAnswer(st, now, authorized), max) && Refused(AfterAnswer(st, now, authorized))
  {
    hide ClientInvariant, Retains;
    var next := AfterAnswer(st, now, authorized);
    ServerKept(st, next, max);
    ClientSideKept(st, next);
    assert SilentWasSent(st, st.attached.value);
    assert next.down == [Resumed(false, 0)] && next.down[1..] == [];
    assert InFlight(next.down[1..], next.attached.value, 0, next.Sent(next.attached.value), next.Silent(next.attached.value));
    assert Refused(next);
  }

  /** The frames that an accepted RESUME re-sends are exactly the last `min(sent - last, max)`. */
  lemma ResentFrames(st: State, max: nat)
    requires Invariant(st, max) && Asking(st) && st.up[0].id in st.sessions
    ensures var id := st.up[0].id;
            var count := Min(|st.Sent(id)| - st.client.last, max);
            && st.client.last <= |st.Sent(id)|
            && Missed(st.sessions[id].frames, st.client.last) == Suffix(st.Sent(id), count)
            && Evicted(st.sessions[id], st.client.last) == Between(st.client.last, |st.Sent(id)| - count)
  {
    var id := st.up[0].id;
    assert Accounts(st, id, st.client.last);
    MissedOfSuffix(st.Sent(id), Min(|st.Sent(id)|, max), st.client.last);
  }

  lemma AcceptKeeps(st: State, now: int, authorized: bool, max: nat)
    requires Invariant(st, max) && Asking(st) && Resumable(st.sessions, st.up[0].id, now, authorized)
    ensures Invariant(AfterAnswer(st, now, authorized), max)
    ensures Recovering(AfterAnswer(st, now, authorized))
  {
    hide InFlight, Missed, Evicted, ClientInvariant, Between, Suffix, Follows;
    var next := AfterAnswer(st, now, authorized);
    var id := st.up[0].id;
    ResentFrames(st, max);
    assert Accepted(st, next, id, |st.Sent(id)| - Min(|st.Sent(id)| - st.client.last, max));
    AcceptLosses(st, next, id, max);
    AcceptServer(st, next, id, max);
    AcceptClient(st, next, id);
    AcceptPhase(st, next, max);
  }

  /** What an accepted RESUME leaves lost, and what of the silent numbers. */
  ghost predicate Accepted(st: State, next: State, id: SessionId, from: nat) {
    var last := st.client.last;
    && next.sent == st.sent
    && next.lost == st.lost[id := st.Lost(id) + Between(last, from)]
    && next.silent == st.silent[id := set k | k in st.Silent(id) && k <= last]
  }

  lemma AcceptLosses(st: State, next: State, id: SessionId, max: nat)
    requires Invariant(st, max) && st.client.last <= |st.Sent(id)|
    requires Accepted(st, next, id, |st.Sent(id)| - Min(|st.Sent(id)| - st.client.last, max))
    ensures forall s :: next.Sent(s) == st.Sent(s)
    ensures forall s :: s != id ==> next.Lost(s) == st.Lost(s) && next.Silent(s) == st.Silent(s)
    ensures forall k :: k in next.Lost(id) <==> k in st.Lost(id) || st.client.last < k <= |st.Sent(id)| - Min(|st.Sent(id)| - st.client.last, max)
    ensures forall k :: k in next.Silent(id) <==> k in st.Silent(id) && k <= st.client.last
    ensures forall s: SessionId :: OnlyEvictedIsLost(next, s, max) && SilentWasSent(next, s)
    ensures forall k :: k in next.Lost(id) ==> k <= |st.Sent(id)| - Min(|st.Sent(id)| - st.client.last, max)
  {
    assert forall s :: next.Sent(s) == st.Sent(s);
    var from := |st.Sent(id)| - Min(|st.Sent(id)| - st.client.last, max);
    assert next.Lost(id) == st.Lost(id) + Between(st.client.last, from);
    forall s: SessionId ensures OnlyEvictedIsLost(next, s, max) && SilentWasSent(next, s) {
      assert OnlyEvictedIsLost(st, s, max) && SilentWasSent(st, s);
      if s == id {
        forall k | k in next.Lost(s) ensures 1 <= k && k + max <= |next.Sent(s)| {
          assert k in st.Lost(s) || st.client.last < k <= from;
        }
      } else {
        assert next.Lost(s) == st.Lost(s) && next.Silent(s) == st.Silent(s) && next.Sent(s) == st.Sent(s);
      }
    }
    assert OnlyEvictedIsLost(next, id, max) && next.Sent(id) == st.Sent(id);
  }

  lemma AcceptPhase(st: State, next: State, max: nat)
    requires Asking(st) && st.client.last <= |st.Sent(st.up[0].id)|
    requires var id, last := st.up[0].id, st.client.last;
             var count := Min(|st.Sent(id)| - last, max);
             var from := |st.Sent(id)| - count;
             && next.attached == Some(id) && next.client == st.client && next.up == [] && next.Sent(id) == st.Sent(id)
             && next.client.sessionId.value !in next.sessions
             && next.down == Replays(id, Suffix(st.Sent(id), count)) + [Resumed(true, count)]
             && (forall k :: last < k <= from ==> k in next.Lost(id)) && (forall k :: k in next.Lost(id) ==> k <= from)
             && forall k :: k in next.Silent(id) ==> k <= last
    ensures Recovering(next)
  {
    hide InFlight;
    var id, last := st.up[0].id, st.client.last;
    var sent, count := st.Sent(id), Min(|st.Sent(id)| - last, max);
    InFlightOfSuffix(id, sent, count, Resumed(true, count), next.Silent(id));
    assert AnswerAt(next.down, count);
    assert Follows(next, id, last, |sent| - count);
  }

  lemma AcceptServer(st: State, next: State, id: SessionId, max: nat)
    requires Invariant(st, max) && Asking(st) && id == st.up[0].id && id in st.sessions
    requires next.sessions == (st.sessions - {st.attached.value})[id := st.sessions[id].(expiresAt := Never)]
    requires next.attached == Some(id) && next.unused == st.unused && next.delivered == st.delivered
    requires (forall s :: next.Sent(s) == st.Sent(s)) && forall s :: s != id ==> next.Lost(s) == st.Lost(s)
    requires forall s: SessionId :: OnlyEvictedIsLost(next, s, max) && SilentWasSent(next, s)
    ensures ServerInvariant(next, max)
  {
    forall s | s in next.sessions ensures s < next.unused && Retains(next.sessions[s], next.Sent(s), max) {
      assert s in st.sessions && Retains(st.sessions[s], st.Sent(s), max);
    }
    forall s: SessionId | s >= next.unused ensures next.Sent(s) == [] && Untouched(next, s) {
      assert Untouched(st, s);
    }
  }

  /** Numbers that turn out to be evicted or are re-sent after all lie above the count, so the account up to it stands. */
  lemma AcceptClient(st: State, next: State, id: SessionId)
    requires ClientInvariant(st) && Asking(st) && id == st.up[0].id
    requires next.client == st.client && next.delivered == st.delivered && next.unused == st.unused
    requires forall s :: next.Sent(s) == st.Sent(s)
    requires forall s :: s != id ==> next.Lost(s) == st.Lost(s)
    requires forall s :: s != id ==> next.Silent(s) == st.Silent(s)
    requires forall k :: k <= st.client.last ==> (k in next.Lost(id) <==> k in st.Lost(id)) && (k in next.Silent(id) <==> k in st.Silent(id))
    ensures ClientInvariant(next)
  {
    assert forall s, k :: Received(next, s, k) <==> Received(st, s, k);
    assert Accounts(st, id, st.client.last);
    assert Accounts(next, id, st.client.last);
    assert id != st.client.sessionId.value;
    assert Untouched(next, st.client.sessionId.value);
    assert DeliveredInOrder(next) by {
      forall i | 0 <= i < |next.delivered|
        ensures var d := next.delivered[i];
                1 <= d.frame.sequence <= |next.Sent(d.session)| && d.frame.data == next.Sent(d.session)[d.frame.sequence - 1]
      {
        assert next.delivered[i] == st.delivered[i];
      }
    }
  }

  /** A session that nothing was delivered from accounts for a count of zero. */
  lemma UntouchedAccounts(st: State, s: SessionId)
    requires Untouched(st, s)
    ensures Accounts(st, s, 0)
  {
  }

  /** Reading the handshake on a first connection, and on a replacement. */
  lemma HelloKeeps(st: State, max: nat)
    requires Invariant(st, max) && Greeting(st)
    ensures Invariant(AfterDeliver(st), max)
  {
    hide InFlight, ServerInvariant, ClientInvariant;
    var next := AfterDeliver(st);
    HelloServer(st, max);
    if st.client.sessionId.None? {
      FirstHello(st, max);
    } else {
      LaterHello(st, max);
    }
  }

  lemma HelloServer(st: State, max: nat)
    requires ServerInvariant(st, max) && st.down != [] && st.down[0].Hello?
    ensures ServerInvariant(AfterDeliver(st), max)
    ensures st.attached.Some? ==> st.attached.value < st.unused
  {
    ServerKept(st, AfterDeliver(st), max);
  }

  lemma FirstHello(st: State, max: nat)
    requires ClientInvariant(st) && Greeting(st) && st.client.sessionId.None? && st.attached.value < st.unused
    ensures ClientInvariant(AfterDeliver(st)) && Live(AfterDeliver(st))
  {
    hide InFlight;
    var next, a := AfterDeliver(st), st.attached.value;
    assert forall s :: next.Sent(s) == st.Sent(s) && next.Lost(s) == st.Lost(s) && next.Silent(s) == st.Silent(s);
    UntouchedAccounts(next, a);
    assert InFlight(next.down, a, 0, next.Sent(a), next.Silent(a)) by { HelloFirst(st.down, a, next.Sent(a), next.Silent(a)); }
    assert Follows(next, a, 0, 0);
  }

  lemma HelloFirst(down: seq<Message>, a: SessionId, sent: seq<Payload>, silent: set<nat>)
    requires down != [] && down[0].Hello?
    ensures InFlight(down, a, 0, sent, silent) <==> InFlight(down[1..], a, 0, sent, silent)
  {
  }

  lemma LaterHello(st: State, max: nat)
    requires ClientInvariant(st) && Greeting(st) && st.client.sessionId.Some? && st.attached.value < st.unused
    ensures ClientInvariant(AfterDeliver(st)) && Asking(AfterDeliver(st))
  {
    hide InFlight;
    var next, previous := AfterDeliver(st), st.client.sessionId.value;
    assert forall s :: next.Sent(s) == st.Sent(s) && next.Lost(s) == st.Lost(s) && next.Silent(s) == st.Silent(s);
    assert forall s, k :: Received(next, s, k) <==> Received(st, s, k);
    if st.client.pending.Some? {
      UntouchedAccounts(st, previous);
    }
    assert Accounts(st, previous, st.client.last);
    assert Accounts(next, previous, next.client.last);
    assert Untouched(next, st.attached.value);
    assert DeliveredInOrder(next);
  }

  /** A frame on the way is the next one the client can use. */
  lemma ReplayClientSide(st: State, next: State, a: SessionId, frame: Frame)
    requires ClientInvariant(st) && Home(st.client) == Some(a) && (st.client.pending.Some? ==> st.client.sessionId.value != a)
    requires NextFrame(st, a, frame)
    requires next.client == st.client.(last := frame.sequence) && next.unused == st.unused
    requires next.delivered == st.delivered + [Delivery(a, frame)]
    requires next.sent == st.sent && next.lost == st.lost && next.silent == st.silent
    ensures ClientInvariant(next)
  {
    hide Received, DeliveredInOrder;
    var d := Delivery(a, frame);
    assert forall s :: next.Sent(s) == st.Sent(s) && next.Lost(s) == st.Lost(s) && next.Silent(s) == st.Silent(s);
    forall s, k ensures Received(next, s, k) <==> Received(st, s, k) || (s == a && k == frame.sequence) {
      ReceivedOneMore(st, next, d, s, k);
    }
    assert Accounts(st, a, st.client.last);
    assert Accounts(next, a, frame.sequence);
    forall i | 0 <= i < |st.delivered| && st.delivered[i].session == a ensures st.delivered[i].frame.sequence < frame.sequence {
      assert Received(st, a, st.delivered[i].frame.sequence) by { ReceivedAt(st, i); }
    }
    InOrderOneMore(st, next, d);
    if st.client.pending.Some? {
      assert Untouched(next, st.client.sessionId.value);
    }
  }

  /** Genuine and new, with only lost and silent numbers between it and the count. */
  ghost predicate NextFrame(st: State, a: SessionId, frame: Frame) {
    && st.client.last < frame.sequence <= |st.Sent(a)| && frame.data == st.Sent(a)[frame.sequence - 1]
    && frame.sequence !in st.Lost(a) && frame.sequence !in st.Silent(a)
    && forall k :: st.client.last < k < frame.sequence ==> k in st.Lost(a) || k in st.Silent(a)
  }

  lemma ReceivedAt(st: State, i: nat)
    requires i < |st.delivered|
    ensures Received(st, st.delivered[i].session, st.delivered[i].frame.sequence)
  {
  }

  lemma ReceivedOneMore(st: State, next: State, d: Delivery, s: SessionId, k: nat)
    requires next.delivered == st.delivered + [d]
    ensures Received(next, s, k) <==> Received(st, s, k) || (s == d.session && k == d.frame.sequence)
  {
    var n := |st.delivered|;
    assert next.delivered[n] == d;
    if Received(st, s, k) {
      var i :| 0 <= i < n && st.delivered[i].session == s && st.delivered[i].frame.sequence == k;
      assert next.delivered[i] == st.delivered[i];
    }
  }

  /** A genuine frame with a number above all others of its session. */
  lemma InOrderOneMore(st: State, next: State, d: Delivery)
    requires DeliveredInOrder(st) && next.delivered == st.delivered + [d] && next.sent == st.sent
    requires 1 <= d.frame.sequence <= |st.Sent(d.session)| && d.frame.data == st.Sent(d.session)[d.frame.sequence - 1]
    requires forall i :: 0 <= i < |st.delivered| && st.delivered[i].session == d.session ==> st.delivered[i].frame.sequence < d.frame.sequence
    ensures DeliveredInOrder(next)
  {
    var n := |st.delivered|;
    assert next.delivered[n] == d && forall i :: 0 <= i < n ==> next.delivered[i] == st.delivered[i];
    assert forall s :: next.Sent(s) == st.Sent(s);
  }

  lemma ReplayFollows(st: State, next: State, a: SessionId, from: nat)
    requires Follows(st, a, st.client.last, from) && st.down != [] && st.down[0].Replay?
    requires next.down == st.down[1..] && next.sent == st.sent && next.lost == st.lost && next.silent == st.silent
    ensures st.down[0].origin == a && NextFrame(st, a, st.down[0].frame)
    ensures var sequence := st.down[0].frame.sequence; Follows(next, a, sequence, sequence)
  {
    assert next.Sent(a) == st.Sent(a) && next.Lost(a) == st.Lost(a) && next.Silent(a) == st.Silent(a);
  }

  /** Reading a frame: it is never a duplicate, and it is the one the count waits for. */
  lemma ReplayKeeps(st: State, max: nat)
    requires Invariant(st, max) && (Recovering(st) || Live(st)) && st.down != [] && st.down[0].Replay?
    ensures Invariant(AfterDeliver(st), max)
    ensures |AfterDeliver(st).delivered| == |st.delivered| + 1
  {
    var next := AfterDeliver(st);
    var a := st.attached.value;
    var from: nat :| Follows(st, a, st.client.last, from);
    ReplayFollows(st, next, a, from);
    ReplayClientSide(st, next, a, st.down[0].frame);
    ReplayServer(st, next, a, Delivery(a, st.down[0].frame), max);
    if Recovering(st) {
      AnswerBehind(st.down);
    }
  }

  lemma ReplayServer(st: State, next: State, a: SessionId, d: Delivery, max: nat)
    requires ServerInvariant(st, max) && st.attached == Some(a)
    requires next.sessions == st.sessions && next.attached == st.attached && next.unused == st.unused
    requires next.sent == st.sent && next.lost == st.lost && next.silent == st.silent
    requires d.session == a && next.delivered == st.delivered + [d]
    ensures ServerInvariant(next, max)
  {
    assert forall s :: next.Sent(s) == st.Sent(s) && next.Lost(s) == st.Lost(s) && next.Silent(s) == st.Silent(s);
    LossesKept(st, next, max);
    forall s: SessionId | s >= next.unused ensures next.Sent(s) == [] && Untouched(next, s) {
      assert Untouched(st, s);
    }
  }

  /** What remains when a message is read: the answer is still on the way, or it was this one. */
  lemma AnswerBehind(down: seq<Message>)
    requires AnswerOnWay(down)
    ensures down != [] && !down[0].Hello?
    ensures down[0].Replay? ==> AnswerOnWay(down[1..])
    ensures down[0].Resumed? ==> down[0].recovered && OnlyReplays(down[1..])
  {
    var i :| AnswerAt(down, i);
    if i > 0 {
      var before := i - 1;
      assert AnswerAt(down[1..], before);
    }
  }

  lemma AnswerBeforeSend(down: seq<Message>, message: Message)
    requires AnswerOnWay(down) && message.Replay?
    ensures AnswerOnWay(down + [message])
  {
    var i :| AnswerAt(down, i);
    assert AnswerAt(down + [message], i);
  }

  /** Only the client's fields change. */
  lemma ResumedSame(st: State, max: nat)
    requires ServerInvariant(st, max) && DeliveredInOrder(st) && st.down != [] && st.down[0].Resumed?
    ensures var next := AfterDeliver(st);
            && (forall s :: next.Sent(s) == st.Sent(s) && next.Lost(s) == st.Lost(s) && next.Silent(s) == st.Silent(s))
            && (forall s, k :: Received(next, s, k) <==> Received(st, s, k))
            && ServerInvariant(next, max) && DeliveredInOrder(next)
  {
    ServerKept(st, AfterDeliver(st), max);
  }

  /** Reading the answer to RESUME. */
  lemma ResumedKeeps(st: State, max: nat)
    requires Invariant(st, max) && (Recovering(st) || Refused(st)) && st.down[0].Resumed?
    ensures Invariant(AfterDeliver(st), max) && Live(AfterDeliver(st))
  {
    hide ServerInvariant, DeliveredInOrder, Received;
    var next := AfterDeliver(st);
    var a := st.attached.value;
    ResumedSame(st, max);
    assert a < st.unused by { AttachedIsOld(st, max); }
    if Refused(st) {
      UntouchedAccounts(next, a);
      assert Follows(next, a, 0, 0);
    } else {
      AnswerBehind(st.down);
      var from: nat :| Follows(st, a, st.client.last, from);
      assert Follows(next, a, next.client.last, from);
      assert Accounts(st, a, st.client.last) && Accounts(next, a, next.client.last);
    }
  }

  lemma AttachedIsOld(st: State, max: nat)
    requires ServerInvariant(st, max) && st.attached.Some?
    ensures st.attached.value < st.unused
  {
  }

  lemma DeliverKeeps(st: State, max: nat)
    requires Invariant(st, max) && st.down != []
    ensures Invariant(AfterDeliver(st), max)
  {
    if Greeting(st) {
      HelloKeeps(st, max);
    } else if st.down[0].Replay? {
      ReplayKeeps(st, max);
    } else if Refused(st) {
      ResumedKeeps(st, max);
    } else {
      assert !Live(st) by { assert !OnlyReplays(st.down); }
      ResumedKeeps(st, max);
    }
  }

  /** Every step of an orderly run keeps the invariant. */
  lemma StepKeeps(st: State, step: Step, max: nat)
    requires Invariant(st, max) && Enabled(st, step) && (step.Disconnect? ==> Recovered(st.client))
    ensures Invariant(After(st, step, max), max)
  {
    match step
    case Connect => ConnectKeeps(st, max);
    case Deliver => DeliverKeeps(st, max);
    case Answer(now, authorized) => AnswerKeeps(st, now, authorized, max);
    case Send(data) => SendKeeps(st, data, max);
    case SendSilently(id, data) => SendSilentlyKeeps(st, id, data, max);
    case Disconnect(now, grace) => DisconnectKeeps(st, now, grace, max);
    case Expire(id, _) => ExpireKeeps(st, id, max);
  }

  lemma InitialInvariant(max: nat)
    ensures Invariant(INITIAL, max)
  {
    assert forall s: SessionId :: OnlyEvictedIsLost(INITIAL, s, max) && SilentWasSent(INITIAL, s);
    assert Detached(INITIAL);
  }

  lemma {:induction false} RunKeeps(st: State, steps: seq<Step>, max: nat)
    requires Invariant(st, max) && Orderly(st, steps, max)
    ensures Run(st, steps, max).Some? ==> Invariant(Run(st, steps, max).value, max)
    decreases |steps|
  {
    hide Invariant, After, Enabled;
    if steps != [] && Enabled(st, steps[0]) {
      StepKeeps(st, steps[0], max);
      RunKeeps(After(st, steps[0], max), steps[1..], max);
    }
  }
}
