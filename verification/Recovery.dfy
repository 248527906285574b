/**
 * Session recovery as a protocol of one client and one server (`SonicWSServer.ts`, `client.py`): numbered frames, a
 * bounded replay buffer, RESUME on a replacement connection, and a client that drops what it has already seen.
 */
module Recovery {
  import opened Primitives

  type SessionId = nat
  type Payload = seq<byte>

  datatype Frame = Frame(sequence: nat, data: Payload)

  /** `expiresAt`: infinity while a connection holds the session. */
  datatype Expiry = Never | At(time: int)

  datatype Session = Session(sequence: nat, frames: seq<Frame>, expiresAt: Expiry)

  /** What the server sends. The origin of a frame is not on the wire; it is kept to state properties. */
  datatype Message = Hello(id: SessionId) | Replay(origin: SessionId, frame: Frame) | Resumed(recovered: bool, replayed: nat)

  datatype Resume = Resume(id: SessionId, lastSequence: nat)

  datatype Client = Client(sessionId: Option<SessionId>, last: nat, pending: Option<SessionId>)

  datatype Delivery = Delivery(session: SessionId, frame: Frame)

  // ---- the server's operations on a session

  /** `frames.splice(0, frames.length - max)` when there are more than `max`. */
  function Trim(frames: seq<Frame>, max: nat): seq<Frame> {
    if |frames| > max then frames[|frames| - max..] else frames
  }

  /** `replayFrame`: number the packet, retain it, drop the oldest beyond `max`. */
  function Push(session: Session, data: Payload, max: nat): Session {
    var frame := Frame(session.sequence + 1, data);
    session.(sequence := session.sequence + 1, frames := Trim(session.frames + [frame], max))
  }

  /** `frames.filter(frame => frame.sequence > lastSequence)` */
  function Missed(frames: seq<Frame>, lastSequence: nat): seq<Frame> {
    if frames == [] then []
    else (if frames[0].sequence > lastSequence then [frames[0]] else []) + Missed(frames[1..], lastSequence)
  }

  predicate Resumable(sessions: map<SessionId, Session>, id: SessionId, now: int, authorized: bool) {
    id in sessions && !(sessions[id].expiresAt.At? && sessions[id].expiresAt.time < now) && authorized
  }

  function Replays(origin: SessionId, frames: seq<Frame>): (messages: seq<Message>)
    ensures |messages| == |frames|
  {
    seq(|frames|, i requires 0 <= i < |frames| => Replay(origin, frames[i]))
  }

  // ---- the client's reactions

  /** The handshake on a replacement transport: the new session id is taken over at once, the old one is asked for. */
  function OnHello(c: Client, id: SessionId): (Client, seq<Resume>) {
    match c.sessionId
    case None => (c.(sessionId := Some(id)), [])
    case Some(previous) => (c.(sessionId := Some(id), pending := Some(previous)), [Resume(previous, c.last)])
  }

  predicate Fresh(c: Client, frame: Frame) {
    frame.sequence > c.last
  }

  function OnReplay(c: Client, frame: Frame): Client {
    if Fresh(c, frame) then c.(last := frame.sequence) else c
  }

  function OnResumed(c: Client, recovered: bool): Client {
    var known := if recovered && c.pending.Some? then c.(sessionId := c.pending) else c;
    known.(pending := None, last := if recovered then c.last else 0)
  }

  /** The session whose numbers `last` counts. */
  function Home(c: Client): Option<SessionId> {
    if c.pending.Some? then c.pending else c.sessionId
  }

  function HeldBy(c: Client, held: set<SessionId>): set<SessionId> {
    if Home(c).Some? then held + {Home(c).value} else held
  }

  // ---- the system

  /**
   * The server's sessions, the session of its live connection and the one that connection opened with, both directions
   * of the transport, and the client.
   * Then what was ever sent, delivered, and found evicted when the client asked for it; the numbers given to frames that
   * went nowhere although the client held their session, and were not re-sent since; the sessions the client has counted
   * for, and those whose RESUME was refused.
   */
  datatype State = State(
    sessions: map<SessionId, Session>,
    unused: SessionId,
    attached: Option<SessionId>,
    original: Option<SessionId>,
    down: seq<Message>,
    up: seq<Resume>,
    client: Client,
    sent: map<SessionId, seq<Payload>>,
    lost: map<SessionId, set<nat>>,
    delivered: seq<Delivery>,
    silent: map<SessionId, set<nat>>,
    held: set<SessionId>,
    refused: set<SessionId>) {

    function Sent(s: SessionId): seq<Payload> {
      if s in sent then sent[s] else []
    }

    function Lost(s: SessionId): set<nat> {
      if s in lost then lost[s] else {}
    }

    function Silent(s: SessionId): set<nat> {
      if s in silent then silent[s] else {}
    }
  }

  const INITIAL: State := State(map[], 0, None, None, [], [], Client(None, 0, None), map[], map[], [], map[], {}, {})

  /**
   * A silent send numbers and retains a frame that never reaches the transport: it goes through a closed connection, which
   * keeps its session id, or the outbound rate handler drops it and closes the socket.
   */
  datatype Step =
    | Connect
    | Deliver
    | Answer(now: int, authorized: bool)
    | Send(data: Payload)
    | SendSilently(id: SessionId, data: Payload)
    | Disconnect(now: int, grace: nat)
    | Expire(id: SessionId, now: int)

  /** Replayable packets wait until the client's RESUME is answered; a first connection has none. */
  predicate Settled(st: State) {
    && st.attached.Some?
    && st.up == []
    && (st.client.sessionId.Some? ==> forall i :: 0 <= i < |st.down| ==> !st.down[i].Hello?)
  }

  predicate Enabled(st: State, step: Step) {
    match step
    case Connect => st.attached.None?
    case Deliver => st.down != []
    case Answer(_, _) => st.up != [] && st.attached.Some?
    case Send(_) => Settled(st) && st.attached.value in st.sessions
    case SendSilently(id, _) => id in st.sessions && (st.attached == Some(id) ==> Settled(st))
    case Disconnect(_, _) => st.attached.Some? && st.attached.value in st.sessions
    case Expire(id, now) =>
      id in st.sessions && st.attached != Some(id) && st.sessions[id].expiresAt.At? && st.sessions[id].expiresAt.time <= now
  }

  function AfterConnect(st: State): State {
    st.(sessions := st.sessions[st.unused := Session(0, [], Never)], unused := st.unused + 1, attached := Some(st.unused), original := Some(st.unused),
        down := [Hello(st.unused)], up := [])
  }

  function AfterDeliver(st: State): State
    requires st.down != []
  {
    var rest := st.(down := st.down[1..]);
    match st.down[0]
    case Hello(id) =>
      var (client, requests) := OnHello(st.client, id);
      rest.(client := client, up := st.up + requests, held := HeldBy(client, st.held))
    case Replay(origin, frame) =>
      rest.(client := OnReplay(st.client, frame),
            delivered := if Fresh(st.client, frame) then st.delivered + [Delivery(origin, frame)] else st.delivered)
    case Resumed(recovered, _) =>
      var client := OnResumed(st.client, recovered);
      rest.(client := client, held := HeldBy(client, st.held))
  }

  /** Numbers the client does not have and the buffer no longer holds. */
  function Evicted(session: Session, lastSequence: nat): set<nat> {
    if |session.frames| <= session.sequence then Between(lastSequence, session.sequence - |session.frames|) else {}
  }

  function Between(low: nat, high: nat): (r: set<nat>)
    ensures forall k :: k in r <==> low < k <= high
  {
    if high <= low then {} else Between(low, high - 1) + {high}
  }

  /** `resumeSession` */
  function AfterAnswer(st: State, now: int, authorized: bool): State
    requires st.up != [] && st.attached.Some?
  {
    var Resume(id, lastSequence) := st.up[0];
    var rest := st.(up := st.up[1..]);
    if !Resumable(st.sessions, id, now, authorized) then rest.(down := st.down + [Resumed(false, 0)], refused := st.refused + {id})
    else
      var session := st.sessions[id].(expiresAt := Never);
      var missed := Missed(session.frames, lastSequence);
      rest.(sessions := (st.sessions - {st.attached.value})[id := session],
            attached := Some(id),
            down := st.down + Replays(id, missed) + [Resumed(true, |missed|)],
            lost := st.lost[id := st.Lost(id) + Evicted(st.sessions[id], lastSequence)],
            silent := st.silent[id := set k | k in st.Silent(id) && k <= lastSequence])
  }

  function Numbered(st: State, id: SessionId, data: Payload, max: nat): State
    requires id in st.sessions
  {
    st.(sessions := st.sessions[id := Push(st.sessions[id], data, max)], sent := st.sent[id := st.Sent(id) + [data]])
  }

  function AfterSend(st: State, data: Payload, max: nat): State
    requires st.attached.Some? && st.attached.value in st.sessions
  {
    var id := st.attached.value;
    Numbered(st, id, data, max).(down := st.down + [Replay(id, Frame(st.sessions[id].sequence + 1, data))])
  }

  /** Only for the session of the live connection is there anything to miss: others re-send when they are resumed. */
  function AfterSilence(st: State, id: SessionId, data: Payload, max: nat): State
    requires id in st.sessions
  {
    var silent := if st.attached == Some(id) then st.silent[id := st.Silent(id) + {st.sessions[id].sequence + 1}] else st.silent;
    Numbered(st, id, data, max).(silent := silent)
  }

  /** Whatever is still on the way is gone; the session is kept for a while. */
  function AfterDisconnect(st: State, now: int, grace: nat): State
    requires st.attached.Some? && st.attached.value in st.sessions
  {
    var id := st.attached.value;
    st.(sessions := st.sessions[id := st.sessions[id].(expiresAt := At(now + grace))], attached := None, original := None, down := [], up := [])
  }

  function After(st: State, step: Step, max: nat): State
    requires Enabled(st, step)
  {
    match step
    case Connect => AfterConnect(st)
    case Deliver => AfterDeliver(st)
    case Answer(now, authorized) => AfterAnswer(st, now, authorized)
    case Send(data) => AfterSend(st, data, max)
    case SendSilently(id, data) => AfterSilence(st, id, data, max)
    case Disconnect(now, grace) => AfterDisconnect(st, now, grace)
    case Expire(id, _) => st.(sessions := st.sessions - {id})
  }

  /** The state after a run, if every step was enabled. */
  function Run(st: State, steps: seq<Step>, max: nat): Option<State>
    decreases |steps|
  {
    if steps == [] then Some(st)
    else if !Enabled(st, steps[0]) then None
    else Run(After(st, steps[0], max), steps[1..], max)
  }

  /** What a client can see before its transport goes: no recovery is outstanding, or there is nothing it could miscount. */
  predicate Recovered(c: Client) {
    c.pending.None? || c.last == 0
  }

  /** Every disconnect finds the client with its previous recovery answered. */
  predicate Orderly(st: State, steps: seq<Step>, max: nat)
    decreases |steps|
  {
    if steps == [] || !Enabled(st, steps[0]) then true
    else (steps[0].Disconnect? ==> Recovered(st.client)) && Orderly(After(st, steps[0], max), steps[1..], max)
  }

  // ---- the invariant

  function Min(a: nat, b: nat): nat {
    if a < b then a else b
  }

  /** The last `count` of everything sent, with the numbers they were sent under. */
  function Suffix(sent: seq<Payload>, count: nat): (frames: seq<Frame>)
    requires count <= |sent|
    ensures |frames| == count
  {
    seq(count, i requires 0 <= i < count => Frame(|sent| - count + i + 1, sent[|sent| - count + i]))
  }

  /** The session agrees with what was sent: the count, and the last `max` frames. */
  ghost predicate Retains(session: Session, sent: seq<Payload>, max: nat) {
    session.sequence == |sent| && session.frames == Suffix(sent, Min(|sent|, max))
  }

  /** A number is lost only after `max` younger ones. */
  ghost predicate OnlyEvictedIsLost(st: State, s: SessionId, max: nat) {
    forall k :: k in st.Lost(s) ==> 1 <= k && k + max <= |st.Sent(s)|
  }

  ghost predicate ServerInvariant(st: State, max: nat) {
    && (forall s :: s in st.sessions ==> s < st.unused && Retains(st.sessions[s], st.Sent(s), max))
    && (st.attached.Some? ==> st.attached.value in st.sessions)
    && (forall s :: s >= st.unused ==> st.Sent(s) == [] && Untouched(st, s))
    && (forall s: SessionId :: OnlyEvictedIsLost(st, s, max))
    && (forall s: SessionId :: SilentWasSent(st, s))
  }

  ghost predicate SilentWasSent(st: State, s: SessionId) {
    forall k :: k in st.Silent(s) ==> 1 <= k <= |st.Sent(s)|
  }

  predicate Received(st: State, s: SessionId, k: nat) {
    exists i :: 0 <= i < |st.delivered| && st.delivered[i].session == s && st.delivered[i].frame.sequence == k
  }

  ghost predicate Untouched(st: State, s: SessionId) {
    st.Lost(s) == {} && forall i :: 0 <= i < |st.delivered| ==> st.delivered[i].session != s
  }

  /** What was delivered is what was sent under that number, and numbers of one session only grow. */
  ghost predicate DeliveredInOrder(st: State) {
    && (forall i :: 0 <= i < |st.delivered| ==>
          var d := st.delivered[i];
          1 <= d.frame.sequence <= |st.Sent(d.session)| && d.frame.data == st.Sent(d.session)[d.frame.sequence - 1])
    && (forall i, j :: 0 <= i < j < |st.delivered| && st.delivered[i].session == st.delivered[j].session ==>
          st.delivered[i].frame.sequence < st.delivered[j].frame.sequence)
  }

  /** The client has `last`, of the numbers up to it exactly those neither lost nor silent, and none beyond. */
  ghost predicate Accounts(st: State, s: SessionId, last: nat) {
    && last <= |st.Sent(s)| && (last > 0 ==> Received(st, s, last))
    && forall k: nat :: Received(st, s, k) <==> 1 <= k <= last && k !in st.Lost(s) && k !in st.Silent(s)
  }

  ghost predicate ClientInvariant(st: State) {
    && DeliveredInOrder(st)
    && (st.client.sessionId.Some? ==> st.client.sessionId.value < st.unused)
    && (st.client.pending.Some? ==>
          && st.client.sessionId.Some? && st.client.pending.value < st.client.sessionId.value
          && Untouched(st, st.client.sessionId.value))
    && match Home(st.client)
       case Some(s) => Accounts(st, s, st.client.last)
       case None => st.client.last == 0 && st.delivered == []
  }

  ghost predicate AllSilent(low: nat, high: nat, silent: set<nat>) {
    forall k :: low < k <= high ==> k in silent
  }

  /** The frames on the way are all of session `s`, numbered from `from + 1` to the last one sent; only silent numbers are left out. */
  ghost predicate InFlight(down: seq<Message>, s: SessionId, from: nat, sent: seq<Payload>, silent: set<nat>) {
    if down == [] then AllSilent(from, |sent|, silent)
    else match down[0]
      case Replay(origin, frame) =>
        && origin == s && from < frame.sequence <= |sent| && frame.data == sent[frame.sequence - 1] && frame.sequence !in silent
        && AllSilent(from, frame.sequence - 1, silent) && InFlight(down[1..], s, frame.sequence, sent, silent)
      case _ => InFlight(down[1..], s, from, sent, silent)
  }

  predicate OnlyReplays(down: seq<Message>) {
    forall i :: 0 <= i < |down| ==> down[i].Replay?
  }

  predicate AnswerAt(down: seq<Message>, i: nat) {
    && i < |down| && down[i].Resumed? && down[i].recovered
    && forall j :: 0 <= j < |down| && j != i ==> down[j].Replay?
  }

  /** RESUMED(true) is among frames. */
  ghost predicate AnswerOnWay(down: seq<Message>) {
    exists i :: AnswerAt(down, i)
  }

  /** The next frame on the way follows `last` directly, except for numbers that are lost or silent. */
  ghost predicate Follows(st: State, s: SessionId, last: nat, from: nat) {
    && last <= from <= |st.Sent(s)| && InFlight(st.down, s, from, st.Sent(s), st.Silent(s))
    && (forall k :: last < k <= from ==> k in st.Lost(s))
    && (forall k :: k in st.Lost(s) ==> k <= from)
  }

  ghost predicate Detached(st: State) {
    st.attached.None? && st.down == [] && st.up == [] && Recovered(st.client)
  }

  /** The handshake is on the way; on a first connection frames may follow it. */
  ghost predicate Greeting(st: State) {
    && st.attached.Some? && st.up == [] && st.down != [] && st.down[0] == Hello(st.attached.value) && OnlyReplays(st.down[1..])
    && Recovered(st.client) && Untouched(st, st.attached.value)
    && (st.client.sessionId.Some? ==> |st.down| == 1 && st.Sent(st.attached.value) == [] && st.client.sessionId.value < st.attached.value)
    && (st.client.sessionId.None? ==> InFlight(st.down, st.attached.value, 0, st.Sent(st.attached.value), st.Silent(st.attached.value)))
  }

  /** RESUME is on the way. */
  ghost predicate Asking(st: State) {
    && st.attached.Some? && st.client.pending.Some? && st.client.sessionId == st.attached && st.down == []
    && st.up == [Resume(st.client.pending.value, st.client.last)] && st.Sent(st.attached.value) == []
  }

  /** RESUMED(true) is on the way, between missed frames and new ones; the session of the new connection is gone. */
  ghost predicate Recovering(st: State) {
    && st.attached.Some? && st.client.pending == st.attached && st.up == [] && st.client.sessionId.Some?
    && st.client.sessionId.value !in st.sessions
    && AnswerOnWay(st.down)
    && exists from: nat :: Follows(st, st.attached.value, st.client.last, from)
  }

  /** RESUMED(false) is on the way; the frames behind it belong to the new session. */
  ghost predicate Refused(st: State) {
    && st.attached.Some? && st.client.pending.Some? && st.client.sessionId == st.attached && st.up == []
    && st.down != [] && st.down[0].Resumed? && !st.down[0].recovered && OnlyReplays(st.down[1..])
    && InFlight(st.down, st.attached.value, 0, st.Sent(st.attached.value), st.Silent(st.attached.value))
  }

  ghost predicate Live(st: State) {
    && st.attached.Some? && st.client.pending.None? && st.client.sessionId == st.attached && st.up == [] && OnlyReplays(st.down)
    && exists from: nat :: Follows(st, st.attached.value, st.client.last, from)
  }

  ghost predicate Invariant(st: State, max: nat) {
    && ServerInvariant(st, max) && ClientInvariant(st)
    && (Detached(st) || Greeting(st) || Asking(st) || Recovering(st) || Refused(st) || Live(st))
  }
}
