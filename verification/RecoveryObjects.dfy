/** The server and the client as objects whose methods change their fields, proved against `Recovery`. */
module RecoveryObjects {
  import opened Primitives
  import opened Recovery

  /** `replayFrame` hands an unwrapped packet through when the connection has no session. */
  datatype Outgoing = Plain(data: Payload) | Wrapped(frame: Frame)

  class Server {
    var sessions: map<SessionId, Session>
    const maxPackets: nat

    constructor (maxPackets: nat)
      ensures sessions == map[] && this.maxPackets == maxPackets
    {
      this.sessions, this.maxPackets := map[], maxPackets;
    }

    /** A new connection starts with an empty session of its own. */
    method Open(id: SessionId)
      modifies this
      ensures sessions == old(sessions)[id := Session(0, [], Never)]
    {
      sessions := sessions[id := Session(0, [], Never)];
    }

    /** `replayFrame` */
    method ReplayFrame(connection: SessionId, data: Payload) returns (out: Outgoing)
      modifies this
      ensures connection !in old(sessions) ==> out == Plain(data) && sessions == old(sessions)
      ensures connection in old(sessions) ==>
                && sessions == old(sessions)[connection := Push(old(sessions)[connection], data, maxPackets)]
                && out == Wrapped(Frame(sessions[connection].sequence, data))
    {
      if connection !in sessions {
        return Plain(data);
      }
      var session := sessions[connection];
      var sequence := session.sequence + 1;
      var replay := Frame(sequence, data);
      var frames := session.frames + [replay];
      if |frames| > maxPackets {
        frames := frames[|frames| - maxPackets..];
      }
      sessions := sessions[connection := Session(sequence, frames, session.expiresAt)];
      return Wrapped(replay);
    }

    /** The `close` handler. */
    method Close(connection: SessionId, now: int, grace: nat)
      modifies this
      ensures connection !in old(sessions) ==> sessions == old(sessions)
      ensures connection in old(sessions) ==>
                sessions == old(sessions)[connection := old(sessions)[connection].(expiresAt := At(now + grace))]
    {
      if connection in sessions {
        sessions := sessions[connection := sessions[connection].(expiresAt := At(now + grace))];
      }
    }

    /** `resumeSession`: what is sent on the connection, and the session that the connection has afterwards. */
    method ResumeSession(connection: SessionId, id: SessionId, lastSequence: nat, now: int, authorized: bool)
        returns (messages: seq<Message>, session: SessionId)
      modifies this
      ensures id !in old(sessions) || (old(sessions)[id].expiresAt.At? && old(sessions)[id].expiresAt.time < now) || !authorized ==>
                sessions == old(sessions) && messages == [Resumed(false, 0)] && session == connection
      ensures authorized && id in old(sessions) && (old(sessions)[id].expiresAt.Never? || now <= old(sessions)[id].expiresAt.time) ==>
                && sessions == (old(sessions) - {connection})[id := old(sessions)[id].(expiresAt := Never)]
                && session == id
                && var missed := Missed(old(sessions)[id].frames, lastSequence);
                messages == Replays(id, missed) + [Resumed(true, |missed|)]
    {
      if id !in sessions || (sessions[id].expiresAt.At? && sessions[id].expiresAt.time < now) || !authorized {
        return [Resumed(false, 0)], connection;
      }
      var resumed := sessions[id];
      sessions := sessions - {connection};
      sessions := sessions[id := resumed.(expiresAt := Never)];
      ghost var missed := Missed(resumed.frames, lastSequence);
      var all, count := resumed.frames, 0;
      messages := [];
      assert all[0..] == all;
      for i := 0 to |all|
        invariant count == |messages|
        invariant messages + Replays(id, Missed(all[i..], lastSequence)) == Replays(id, missed)
      {
        assert all[i..][1..] == all[i + 1..];
        if all[i].sequence > lastSequence {
          assert Replays(id, Missed(all[i..], lastSequence)) == [Replay(id, all[i])] + Replays(id, Missed(all[i + 1..], lastSequence));
          messages := messages + [Replay(id, all[i])];
          count := count + 1;
        }
      }
      assert messages == Replays(id, missed);
      messages := messages + [Resumed(true, count)];
      session := id;
    }

    /** One RESUME on a live connection takes the whole system where `AfterAnswer` says. */
    method Answer(ghost st: State, connection: SessionId, request: Resume, now: int, authorized: bool)
        returns (messages: seq<Message>, session: SessionId)
      requires st.attached == Some(connection) && st.up != [] && st.up[0] == request && st.sessions == sessions
      modifies this
      ensures var next := AfterAnswer(st, now, authorized);
              next.sessions == sessions && next.attached == Some(session) && next.down == st.down + messages
    {
      messages, session := ResumeSession(connection, request.id, request.lastSequence, now, authorized);
      assert forall a: seq<Message>, b: seq<Message>, c: seq<Message> :: (a + b) + c == a + (b + c);
    }
  }

  /** What becomes of a replayed frame; an invalid one is an error. */
  datatype Handled = Dropped | Dispatched | Invalid

  /** A packet starts with the key of one of the negotiated packets. */
  predicate KnownKey(data: Payload, packets: nat) {
    |data| > 0 && 1 <= data[0] <= packets
  }

  class Connection {
    var sessionId: Option<SessionId>
    var lastReplaySequence: nat
    var pendingResumeSession: Option<SessionId>

    function State(): Client
      reads this
    {
      Client(sessionId, lastReplaySequence, pendingResumeSession)
    }

    constructor ()
      ensures State() == INITIAL.client
    {
      sessionId, lastReplaySequence, pendingResumeSession := None, 0, None;
    }

    /** The start of `_run_transport`. */
    method Handshake(id: SessionId) returns (requests: seq<Resume>)
      modifies this
      ensures (State(), requests) == OnHello(old(State()), id)
    {
      var previous := sessionId;
      sessionId := Some(id);
      requests := [];
      if previous.Some? {
        pendingResumeSession := previous;
        requests := [Resume(previous.value, lastReplaySequence)];
      }
    }

    /** The REPLAY branch of `_handle_control`: the number is recorded before the packet key is looked at. */
    method HandleReplay(frame: Frame, packets: nat) returns (handled: Handled)
      modifies this
      ensures State() == OnReplay(old(State()), frame)
      ensures handled == if !Fresh(old(State()), frame) then Dropped else if KnownKey(frame.data, packets) then Dispatched else Invalid
    {
      if frame.sequence <= lastReplaySequence {
        return Dropped;
      }
      lastReplaySequence := frame.sequence;
      if |frame.data| == 0 || frame.data[0] == 0 || frame.data[0] > packets {
        return Invalid;
      }
      return Dispatched;
    }

    /** The RESUMED branch of `_handle_control`. */
    method HandleResumed(recovered: bool)
      modifies this
      ensures State() == OnResumed(old(State()), recovered)
    {
      if recovered && pendingResumeSession.Some? {
        sessionId := pendingResumeSession;
      }
      pendingResumeSession := None;
      if !recovered {
        lastReplaySequence := 0;
      }
    }
  }
}
