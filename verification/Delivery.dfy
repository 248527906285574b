/**
 * Delivery of received packets to listeners (`SonicWSConnection.ts`): one lock and one queue for ordinary packets, and
 * one of each for every asynchronous tag. The code runs between awaits without interruption, so a step is what happens
 * from one await to the next.
 */
module Delivery {
  import opened Primitives

  type Tag = string

  /** How a packet is handled: decoded, replaced by the last value, or unravelled into `count` results. */
  datatype Kind = Unbatched | Repeated | Batched(count: nat)

  /** The content stands for the bytes. */
  datatype Packet = Packet(tag: Tag, kind: Kind, content: nat)

  /** The value that decoding finds at a place of a content. */
  datatype Value = Part(content: nat, index: nat)

  /** A value as it was handed to the listeners of a packet. */
  datatype Heard = Heard(packet: Packet, value: Value)

  /**
   * Where a handler awaits: before `onReceive_pre` answers, in the decoder, in the listeners with `left` results to
   * go, or in a batch between two results. An abandoned handler has returned without releasing the lock.
   */
  datatype Stage = Filtering | Decoding | Delivering(left: nat) | BetweenResults(left: nat) | Abandoned

  /** What the awaited calls answer: middleware blocks, the packet is invalid, the connection is closed. */
  datatype Outcome = Outcome(blocked: bool, failed: bool, closed: bool)

  /** A handler, with the answers that it got so far. */
  datatype Task = Task(packet: Packet, stage: Stage, answers: seq<Outcome>)

  /** A packet that a handler was done with, and all the answers to it. */
  datatype Done = Done(packet: Packet, answers: seq<Outcome>)

  /**
   * A lock with its queue; then the handlers in progress, what is done with, and everything that arrived; the last value
   * received for each tag, where an invalid packet leaves none; and what the listeners heard.
   */
  datatype Lane = Lane(
    locked: bool,
    queue: seq<Packet>,
    running: seq<Task>,
    finished: seq<Done>,
    arrived: seq<Packet>,
    last: map<Tag, Option<Value>>,
    log: seq<Heard>)

  const IDLE: Lane := Lane(false, [], [], [], [], map[], [])

  /** `messageHandler` up to its first await. */
  function Handle(lane: Lane, packet: Packet): Lane {
    if lane.locked then lane.(queue := lane.queue + [packet])
    else lane.(locked := true, running := lane.running + [Task(packet, Filtering, [])])
  }

  /** `releasePacketLock`: open the lock, and handle the packet that waits longest. */
  function Release(lane: Lane): Lane {
    var open := lane.(locked := false);
    if lane.queue == [] then open else Handle(open.(queue := lane.queue[1..]), lane.queue[0])
  }

  function Arrive(lane: Lane, packet: Packet): Lane {
    Handle(lane, packet).(arrived := lane.arrived + [packet])
  }

  function Without(tasks: seq<Task>, i: nat): seq<Task>
    requires i < |tasks|
  {
    tasks[..i] + tasks[i + 1..]
  }

  function MoveTo(lane: Lane, i: nat, stage: Stage): Lane
    requires i < |lane.running|
  {
    lane.(running := lane.running[i := lane.running[i].(stage := stage)])
  }

  function Finish(lane: Lane, i: nat): Lane
    requires i < |lane.running|
  {
    lane.(running := Without(lane.running, i), finished := lane.finished + [Done(lane.running[i].packet, lane.running[i].answers)])
  }

  /**
   * `deliverPacket` up to its first await: nothing more happens on a closed connection; otherwise the listeners get the
   * value, or an invalid packet closes the connection.
   */
  function Deliver(lane: Lane, i: nat, left: nat, value: Option<Value>, closed: bool): Lane
    requires i < |lane.running|
  {
    if closed then MoveTo(lane, i, Abandoned)
    else
      var heard := match value case Some(v) => [Heard(lane.running[i].packet, v)] case None => [];
      MoveTo(lane, i, Delivering(left)).(log := lane.log + heard)
  }

  /** The loop over the results of a batch takes the lock again before each result. */
  function NextResult(lane: Lane, i: nat, count: nat, left: nat, closed: bool): Lane
    requires i < |lane.running| && left <= count
  {
    if left == 0 then MoveTo(lane, i, Abandoned)
    else Deliver(lane.(locked := true), i, left, Some(Part(lane.running[i].packet.content, count - left)), closed)
  }

  /** What was decoded becomes the last value of its tag. */
  function Remember(lane: Lane, tag: Tag, value: Option<Value>): Lane {
    lane.(last := lane.last[tag := value])
  }

  function Answered(lane: Lane, i: nat, outcome: Outcome): Lane
    requires i < |lane.running|
  {
    lane.(running := lane.running[i := lane.running[i].(answers := lane.running[i].answers + [outcome])])
  }

  /** What handler `i` does from the await it is in to the next one. */
  function Advance(before: Lane, i: nat, outcome: Outcome): Lane
    requires i < |before.running|
  {
    var lane := Answered(before, i, outcome);
    var task := lane.running[i];
    match task.stage
    case Filtering =>
      if outcome.blocked then Release(Finish(lane, i))
      else (match task.packet.kind
            case Repeated =>
              if task.packet.tag !in lane.last then MoveTo(lane, i, Abandoned)
              else Deliver(lane, i, 1, lane.last[task.packet.tag], outcome.closed)
            case _ => MoveTo(lane, i, Decoding))
    case Decoding =>
      (match task.packet.kind
       case Batched(count) => if outcome.failed then MoveTo(lane, i, Abandoned) else NextResult(lane, i, count, count, outcome.closed)
       case _ =>
         var value := if outcome.failed then None else Some(Part(task.packet.content, 0));
         Deliver(Remember(lane, task.packet.tag, value), i, 1, value, outcome.closed))
    case Delivering(left) =>
      if left <= 1 then Release(Finish(lane, i)) else Release(MoveTo(lane, i, BetweenResults(left - 1)))
    case BetweenResults(left) =>
      if task.packet.kind.Batched? && left <= task.packet.kind.count then NextResult(lane, i, task.packet.kind.count, left, outcome.closed)
      else MoveTo(lane, i, Abandoned)
    case Abandoned => lane
  }

  // ---- the connection: independent lanes

  datatype Connection = Connection(asyncTags: set<Tag>, lanes: map<LaneName, Lane>) {
    function At(name: LaneName): Lane {
      if name in lanes then lanes[name] else IDLE
    }

    function NameOf(packet: Packet): LaneName {
      if packet.tag in asyncTags then Async(packet.tag) else Ordinary
    }
  }

  datatype LaneName = Ordinary | Async(tag: Tag)

  datatype Step = Arrival(packet: Packet) | Resumption(name: LaneName, i: nat, outcome: Outcome)

  predicate Enabled(c: Connection, step: Step) {
    step.Resumption? ==> step.i < |c.At(step.name).running|
  }

  function After(c: Connection, step: Step): Connection
    requires Enabled(c, step)
  {
    match step
    case Arrival(packet) => c.(lanes := c.lanes[c.NameOf(packet) := Arrive(c.At(c.NameOf(packet)), packet)])
    case Resumption(name, i, outcome) => c.(lanes := c.lanes[name := Advance(c.At(name), i, outcome)])
  }

  function Run(c: Connection, steps: seq<Step>): (r: Connection)
    decreases |steps|
  {
    if steps == [] || !Enabled(c, steps[0]) then c else Run(After(c, steps[0]), steps[1..])
  }

  /** The packets that the serial path covers: batches of more than one result are not among them. */
  predicate Serial(packet: Packet) {
    packet.kind.Batched? ==> packet.kind.count <= 1
  }

  predicate SerialRun(steps: seq<Step>) {
    forall i :: 0 <= i < |steps| && steps[i].Arrival? ==> Serial(steps[i].packet)
  }

  function PacketsOf(tasks: seq<Task>): (r: seq<Packet>)
    ensures |r| == |tasks|
  {
    seq(|tasks|, i requires 0 <= i < |tasks| => tasks[i].packet)
  }

  function PacketsDone(done: seq<Done>): (r: seq<Packet>)
    ensures |r| == |done|
  {
    seq(|done|, i requires 0 <= i < |done| => done[i].packet)
  }

  /**
   * At most one handler is in progress, and exactly one while the lock is held; an open lock means an empty queue;
   * and packets are finished in the order of their arrival.
   */
  ghost predicate InOrder(lane: Lane) {
    && |lane.running| == (if lane.locked then 1 else 0)
    && (!lane.locked ==> lane.queue == [])
    && lane.arrived == PacketsDone(lane.finished) + PacketsOf(lane.running) + lane.queue
  }

  // ---- what the listeners hear

  /** Middleware let the packet pass, and its bytes were looked at. */
  predicate WasDecoded(done: Done) {
    |done.answers| >= 2 && !done.answers[0].blocked && done.packet.kind.Unbatched?
  }

  /** The value that an ordinary packet left behind, if it was valid. */
  function Left(done: Done): Option<Value>
    requires WasDecoded(done)
  {
    if done.answers[1].failed then None else Some(Part(done.packet.content, 0))
  }

  /** What the latest decoded packet with this tag left behind, if there was one. */
  function LastValue(done: seq<Done>, tag: Tag): Option<Option<Value>>
    decreases |done|
  {
    if done == [] then None
    else
      var latest := done[|done| - 1];
      if latest.packet.tag == tag && WasDecoded(latest) then Some(Left(latest)) else LastValue(done[..|done| - 1], tag)
  }

  /** The value that the listeners hear of a packet, given what was done before it. */
  function ValueOf(before: seq<Done>, done: Done): Option<Value> {
    if done.answers == [] || done.answers[0].blocked then None
    else match done.packet.kind
      case Repeated => (match LastValue(before, done.packet.tag) case Some(value) => value case None => None)
      case _ => if |done.answers| < 2 || done.answers[1].failed then None else Some(Part(done.packet.content, 0))
  }

  function HeardOf(before: seq<Done>, done: Done): seq<Heard> {
    match ValueOf(before, done) case Some(value) => [Heard(done.packet, value)] case None => []
  }

  /** What the listeners hear of packets that are done with one after the other. */
  function Transcript(done: seq<Done>): seq<Heard>
    decreases |done|
  {
    if done == [] then []
    else Transcript(done[..|done| - 1]) + HeardOf(done[..|done| - 1], done[|done| - 1])
  }

  /** How many answers it takes until the listeners have a packet: one of the middleware, and one of the decoder. */
  function Awaits(packet: Packet): nat {
    if packet.kind.Repeated? then 1 else 2
  }

  /**
   * A packet that is done with was blocked by middleware, or its value was handed to the listeners on an open
   * connection; a repetition needs a value to repeat.
   */
  ghost predicate Settled(before: seq<Done>, done: Done) {
    && |done.answers| >= 1
    && if done.answers[0].blocked then |done.answers| == 1
       else
         && |done.answers| == Awaits(done.packet) + 1 && !done.answers[Awaits(done.packet) - 1].closed
         && (done.packet.kind.Repeated? ==> LastValue(before, done.packet.tag).Some?)
         && (done.packet.kind.Batched? ==> done.packet.kind.count == 1 && !done.answers[1].failed)
  }

  ghost predicate AllSettled(done: seq<Done>) {
    forall i :: 0 <= i < |done| ==> Settled(done[..i], done[i])
  }

  /** The answers that a handler in progress has. */
  ghost predicate Underway(task: Task) {
    && Serial(task.packet)
    && match task.stage
       case Filtering => task.answers == []
       case Decoding => |task.answers| == 1 && !task.answers[0].blocked && !task.packet.kind.Repeated?
       case Delivering(left) =>
         && left == 1 && |task.answers| == Awaits(task.packet) && !task.answers[0].blocked && !task.answers[Awaits(task.packet) - 1].closed
         && (task.packet.kind.Batched? ==> task.packet.kind.count == 1 && !task.answers[1].failed)
       case BetweenResults(_) => false
       case Abandoned =>
         && |task.answers| >= Awaits(task.packet) && !task.answers[0].blocked
         && match task.packet.kind
            case Unbatched => task.answers[1].closed
            case Batched(count) => task.answers[1].closed || task.answers[1].failed || count == 0
            case Repeated => true
  }

  /** What the listeners heard is what the packets done with say, and the one that they have now. */
  ghost predicate Listened(lane: Lane) {
    && AllSettled(lane.finished)
    && (forall tag :: (if tag in lane.last then Some(lane.last[tag]) else None) == LastValue(Decided(lane), tag))
    && lane.log == Transcript(lane.finished) + Now(lane)
  }

  /** The packets done with, and the one in progress if its bytes were looked at. */
  function Decided(lane: Lane): seq<Done> {
    lane.finished + if |lane.running| == 1 && |lane.running[0].answers| >= 2 then [AsDone(lane.running[0])] else []
  }

  function AsDone(task: Task): Done {
    Done(task.packet, task.answers)
  }

  function Now(lane: Lane): seq<Heard> {
    if |lane.running| == 1 && lane.running[0].stage.Delivering? then HeardOf(lane.finished, AsDone(lane.running[0])) else []
  }

  /** A repetition is delivered if there is a value to repeat, and given up otherwise, or on a closed connection. */
  ghost predicate Repeats(before: seq<Done>, task: Task) {
    && (task.stage.Delivering? ==> LastValue(before, task.packet.tag).Some?)
    && (task.stage.Abandoned? && |task.answers| >= 1 ==> task.answers[0].closed || LastValue(before, task.packet.tag).None?)
  }

  /** All packets are serial, and handlers have the answers of their stage. */
  ghost predicate OnlySerial(lane: Lane) {
    && (forall i :: 0 <= i < |lane.running| ==> Underway(lane.running[i]))
    && (forall i :: 0 <= i < |lane.queue| ==> Serial(lane.queue[i]))
    && (|lane.running| == 1 && lane.running[0].packet.kind.Repeated? ==> Repeats(lane.finished, lane.running[0]))
  }

  ghost predicate Orderly(lane: Lane) {
    InOrder(lane) && OnlySerial(lane) && Listened(lane)
  }

  // ---- each step keeps the order and the log

  lemma TranscriptNext(done: seq<Done>, next: Done)
    ensures Transcript(done + [next]) == Transcript(done) + HeardOf(done, next)
    ensures AllSettled(done) && Settled(done, next) ==> AllSettled(done + [next])
  {
    var longer := done + [next];
    assert longer[..|longer| - 1] == done;
    if AllSettled(done) && Settled(done, next) {
      forall i | 0 <= i < |longer| ensures Settled(longer[..i], longer[i]) {
        assert i < |done| ==> longer[..i] == done[..i];
      }
    }
  }

  lemma LastValueNext(done: seq<Done>, next: Done, tag: Tag)
    ensures LastValue(done + [next], tag) == if next.packet.tag == tag && WasDecoded(next) then Some(Left(next)) else LastValue(done, tag)
  {
    var longer := done + [next];
    assert longer[..|longer| - 1] == done;
  }

  lemma ArriveKeeps(lane: Lane, packet: Packet)
    requires Orderly(lane) && Serial(packet)
    ensures Orderly(Arrive(lane, packet))
  {
    var next := Arrive(lane, packet);
    if !lane.locked {
      assert PacketsOf(lane.running + [Task(packet, Filtering, [])]) == [packet];
      assert Decided(next) == Decided(lane);
    }
  }

  /** The next packet starts, or the lock opens. */
  lemma ReleaseKeeps(lane: Lane, done: Lane)
    requires lane.locked && OnlySerial(lane) && lane.running != [] && InOrder(lane)
    requires done == lane.(running := [], finished := done.finished)
    requires PacketsDone(done.finished) == PacketsDone(lane.finished) + PacketsOf(lane.running)
    requires AllSettled(done.finished) && lane.log == Transcript(done.finished)
    requires forall tag :: (if tag in lane.last then Some(lane.last[tag]) else None) == LastValue(done.finished, tag)
    ensures Orderly(Release(done))
  {
    var next := Release(done);
    if lane.queue != [] {
      assert lane.queue == [lane.queue[0]] + lane.queue[1..];
      assert PacketsOf([Task(lane.queue[0], Filtering, [])]) == [lane.queue[0]];
    }
    assert Decided(next) == done.finished;
    assert Now(next) == [];
  }

  /** The last values are those of a list of packets. */
  ghost predicate Remembers(lane: Lane, done: seq<Done>) {
    forall tag :: (if tag in lane.last then Some(lane.last[tag]) else None) == LastValue(done, tag)
  }

  /** The handler goes on with one more answer. */
  lemma MoveKeeps(lane: Lane, next: Lane, task: Task)
    requires Orderly(lane) && |lane.running| == 1
    requires next == lane.(running := [task], last := next.last, log := next.log) && task.packet == lane.running[0].packet
    requires Underway(task) && Remembers(next, Decided(next)) && next.log == Transcript(lane.finished) + Now(next)
    requires task.packet.kind.Repeated? ==> Repeats(lane.finished, task)
    ensures Orderly(next)
  {
    assert PacketsOf(next.running) == PacketsOf(lane.running);
  }

  /** An answer more changes what was decoded only if it was the decoder's. */
  lemma SameValues(lane: Lane, task: Task, outcome: Outcome)
    requires Remembers(lane, Decided(lane)) && |lane.running| == 1 && task == lane.running[0]
    requires !(task.packet.kind.Unbatched? && |task.answers| == 1 && !task.answers[0].blocked)
    ensures Remembers(lane, lane.finished + [Done(task.packet, task.answers + [outcome])])
    ensures |task.answers| >= 1 ==> Remembers(lane, Decided(lane.(running := [task.(answers := task.answers + [outcome])])))
  {
    var next := Done(task.packet, task.answers + [outcome]);
    forall tag ensures LastValue(lane.finished + [next], tag) == LastValue(Decided(lane), tag) {
      LastValueNext(lane.finished, next, tag);
      LastValueNext(lane.finished, AsDone(task), tag);
      if |task.answers| < 2 {
        assert Decided(lane) == lane.finished;
      }
    }
  }

  lemma FilteringKeeps(lane: Lane, outcome: Outcome)
    requires Orderly(lane) && |lane.running| == 1 && lane.running[0].stage.Filtering?
    ensures Orderly(Advance(lane, 0, outcome))
  {
    if outcome.blocked {
      BlockedKeeps(lane, outcome);
    } else {
      PassedKeeps(lane, outcome);
    }
  }

  lemma BlockedKeeps(lane: Lane, outcome: Outcome)
    requires Orderly(lane) && |lane.running| == 1 && lane.running[0].stage.Filtering? && outcome.blocked
    ensures Orderly(Advance(lane, 0, outcome))
  {
    hide Release, Transcript, Settled, LastValue;
    var task, asked := lane.running[0], Answered(lane, 0, outcome);
    var done := Done(task.packet, [outcome]);
    assert Underway(task) && [] + [outcome] == [outcome];
    assert asked.running == [Task(task.packet, Filtering, [outcome])] && AsDone(asked.running[0]) == done;
    assert Decided(lane) == lane.finished;
    SameValues(lane, task, outcome);
    assert Settled(lane.finished, done) by { BlockedIsSettled(lane.finished, done); }
    FinishKeeps(lane, asked, done);
  }

  lemma BlockedIsSettled(before: seq<Done>, done: Done)
    requires |done.answers| == 1 && done.answers[0].blocked
    ensures Settled(before, done) && HeardOf(before, done) == []
  {
  }

  lemma PassedKeeps(lane: Lane, outcome: Outcome)
    requires Orderly(lane) && |lane.running| == 1 && lane.running[0].stage.Filtering? && !outcome.blocked
    ensures Orderly(Advance(lane, 0, outcome))
  {
    hide Release, Transcript, InOrder, AllSettled;
    var task, next := lane.running[0], Advance(lane, 0, outcome);
    assert Underway(task) && [] + [outcome] == [outcome];
    assert |next.running| == 1 && next.running[0].answers == [outcome];
    assert Decided(lane) == lane.finished && Decided(next) == lane.finished;
    MoveKeeps(lane, next, next.running[0]);
  }

  /** The end of the only handler in progress hands the lock to the packet that waited longest. */
  lemma FinishKeeps(lane: Lane, asked: Lane, done: Done)
    requires Orderly(lane) && |lane.running| == 1 && asked == lane.(running := asked.running) && |asked.running| == 1
    requires done == AsDone(asked.running[0]) && done.packet == lane.running[0].packet
    requires Settled(lane.finished, done) && Remembers(lane, lane.finished + [done])
    requires lane.log == Transcript(lane.finished) + HeardOf(lane.finished, done)
    ensures Orderly(Release(Finish(asked, 0)))
  {
    var finished := Finish(asked, 0);
    assert finished.running == [];
    assert PacketsOf(lane.running) == [lane.running[0].packet];
    assert PacketsDone(finished.finished) == PacketsDone(lane.finished) + [done.packet];
    TranscriptNext(lane.finished, done);
    ReleaseKeeps(lane, finished);
  }

  lemma DecodingKeeps(lane: Lane, outcome: Outcome)
    requires Orderly(lane) && |lane.running| == 1 && lane.running[0].stage.Decoding?
    ensures Orderly(Advance(lane, 0, outcome))
  {
    var task, next := lane.running[0], Advance(lane, 0, outcome);
    var done := Done(task.packet, task.answers + [outcome]);
    assert |next.running| == 1 && AsDone(next.running[0]) == done;
    assert Decided(next) == lane.finished + [done] && Decided(lane) == lane.finished;
    if task.packet.kind.Unbatched? {
      forall tag ensures (if tag in next.last then Some(next.last[tag]) else None) == LastValue(Decided(next), tag) {
        LastValueNext(lane.finished, done, tag);
      }
    } else {
      SameValues(lane, task, outcome);
    }
    MoveKeeps(lane, next, next.running[0]);
  }

  lemma DeliveringKeeps(lane: Lane, outcome: Outcome)
    requires Orderly(lane) && |lane.running| == 1 && lane.running[0].stage.Delivering?
    ensures Orderly(Advance(lane, 0, outcome))
  {
    var task, asked := lane.running[0], Answered(lane, 0, outcome);
    var done := Done(task.packet, task.answers + [outcome]);
    assert asked.running == [task.(answers := done.answers)] && AsDone(asked.running[0]) == done;
    SameValues(lane, task, outcome);
    assert ValueOf(lane.finished, done) == ValueOf(lane.finished, AsDone(task));
    FinishKeeps(lane, asked, done);
  }

  lemma AbandonedKeeps(lane: Lane, outcome: Outcome)
    requires Orderly(lane) && |lane.running| == 1 && lane.running[0].stage.Abandoned?
    ensures Orderly(Advance(lane, 0, outcome))
  {
    var task, next := lane.running[0], Advance(lane, 0, outcome);
    assert next.running == [task.(answers := task.answers + [outcome])];
    SameValues(lane, task, outcome);
    MoveKeeps(lane, next, next.running[0]);
  }

  lemma AdvanceKeeps(lane: Lane, i: nat, outcome: Outcome)
    requires Orderly(lane) && i < |lane.running|
    ensures Orderly(Advance(lane, i, outcome))
  {
    hide Advance;
    assert i == 0 && lane.locked && Underway(lane.running[0]);
    match lane.running[0].stage
    case Filtering => FilteringKeeps(lane, outcome);
    case Decoding => DecodingKeeps(lane, outcome);
    case Delivering(_) => DeliveringKeeps(lane, outcome);
    case Abandoned => AbandonedKeeps(lane, outcome);
  }

  /**
   * Over every run without batches of several results: in every lane at most one packet is in progress, an open lock
   * means an empty queue, packets are finished, in progress and queued in the order of their arrival, and the listeners
   * heard what they should.
   */
  lemma {:induction false} SerialDelivery(c: Connection, steps: seq<Step>)
    requires SerialRun(steps)
    requires forall name :: Orderly(c.At(name))
    ensures forall name :: Orderly(Run(c, steps).At(name))
    decreases |steps|
  {
    hide Orderly, Arrive, Advance;
    if steps != [] && Enabled(c, steps[0]) {
      var next := After(c, steps[0]);
      forall name ensures Orderly(next.At(name)) {
        assert Orderly(c.At(name));
        match steps[0] {
          case Arrival(packet) =>
            ArriveKeeps(c.At(c.NameOf(packet)), packet);
            assert next.At(name) == if name == c.NameOf(packet) then Arrive(c.At(name), packet) else c.At(name);
          case Resumption(which, i, outcome) =>
            AdvanceKeeps(c.At(which), i, outcome);
            assert next.At(name) == if name == which then Advance(c.At(name), i, outcome) else c.At(name);
        }
      }
      SerialDelivery(next, steps[1..]);
    }
  }

  lemma IdleIsOrderly()
    ensures Orderly(IDLE)
  {
    assert PacketsOf([]) == [] && PacketsDone([]) == [];
  }

  /** What arrived in a lane during a run. */
  function Arrivals(c: Connection, steps: seq<Step>, name: LaneName): seq<Packet>
    decreases |steps|
  {
    if steps == [] || !Enabled(c, steps[0]) then []
    else ArrivingIn(c.asyncTags, steps[0], name) + Arrivals(After(c, steps[0]), steps[1..], name)
  }

  /** Asynchronous tags have lanes of their own. */
  function ArrivingIn(asyncTags: set<Tag>, step: Step, name: LaneName): seq<Packet> {
    if step.Arrival? && (if step.packet.tag in asyncTags then name == Async(step.packet.tag) else name == Ordinary) then [step.packet] else []
  }

  lemma AdvanceArrives(lane: Lane, i: nat, outcome: Outcome)
    requires i < |lane.running|
    ensures Advance(lane, i, outcome).arrived == lane.arrived
  {
  }

  lemma OneArrival(c: Connection, step: Step, name: LaneName)
    requires Enabled(c, step)
    ensures After(c, step).asyncTags == c.asyncTags
    ensures After(c, step).At(name).arrived == c.At(name).arrived + ArrivingIn(c.asyncTags, step, name)
  {
    hide Advance, Handle;
    if step.Resumption? {
      AdvanceArrives(c.At(step.name), step.i, step.outcome);
    }
  }

  lemma {:induction false} ArrivalsAreRecorded(c: Connection, steps: seq<Step>, name: LaneName)
    ensures Run(c, steps).At(name).arrived == c.At(name).arrived + Arrivals(c, steps, name)
    decreases |steps|
  {
    hide After;
    if steps == [] || !Enabled(c, steps[0]) {
      assert c.At(name).arrived + [] == c.At(name).arrived;
    } else {
      OneArrival(c, steps[0], name);
      ArrivalsAreRecorded(After(c, steps[0]), steps[1..], name);
    }
  }

  /**
   * From a new connection on: what arrived in a lane is done with, in progress or queued, in this order; every packet done
   * with was blocked by middleware or handed to the listeners after decoding; and these heard the values of exactly those
   * packets, once each and in order.
   */
  lemma SerialFromStart(asyncTags: set<Tag>, steps: seq<Step>, name: LaneName)
    requires SerialRun(steps)
    ensures var c := Connection(asyncTags, map[]);
            var lane := Run(c, steps).At(name);
            && Orderly(lane)
            && Arrivals(c, steps, name) == PacketsDone(lane.finished) + PacketsOf(lane.running) + lane.queue
  {
    hide Run, Arrivals, OnlySerial, Listened;
    var c := Connection(asyncTags, map[]);
    IdleIsOrderly();
    SerialDelivery(c, steps);
    ArrivalsAreRecorded(c, steps, name);
    assert Orderly(Run(c, steps).At(name));
    assert [] + Arrivals(c, steps, name) == Arrivals(c, steps, name);
  }

  /** Several results of one batch, while another packet of the lane waits. */
  function BatchedSteps(name: LaneName, batch: Packet, other: Packet): seq<Step> {
    var fine := Outcome(false, false, false);
    [Arrival(batch), Arrival(other), Resumption(name, 0, fine), Resumption(name, 0, fine), Resumption(name, 0, fine), Resumption(name, 0, fine)]
  }

  /**
   * The condition is exact: for every batch of two or more results, on every new connection, any other packet of the
   * lane that arrives meanwhile is in progress together with the batch after the first result.
   */
  lemma BatchesInterleave(asyncTags: set<Tag>, batch: Packet, other: Packet)
    requires batch.kind.Batched? && !Serial(batch)
    requires var c := Connection(asyncTags, map[]); c.NameOf(batch) == c.NameOf(other)
    ensures var c := Connection(asyncTags, map[]);
            var lane := Run(c, BatchedSteps(c.NameOf(batch), batch, other)).At(c.NameOf(batch));
            |lane.running| == 2 && lane.running[0].packet == batch && lane.running[1].packet == other
            && lane.running[0].stage.Delivering? && lane.running[1].stage.Filtering?
  {
    hide Arrive, Advance;
    var c0 := Connection(asyncTags, map[]);
    var name, fine, steps := c0.NameOf(batch), Outcome(false, false, false), BatchedSteps(c0.NameOf(batch), batch, other);
    BatchedLane(batch, other);
    var l1 := Arrive(IDLE, batch);
    var l2 := Arrive(l1, other);
    var l3 := Advance(l2, 0, fine);
    var l4 := Advance(l3, 0, fine);
    var l5 := Advance(l4, 0, fine);
    var c1 := c0.(lanes := map[name := l1]);
    var c2 := c0.(lanes := map[name := l2]);
    var c3 := c0.(lanes := map[name := l3]);
    var c4 := c0.(lanes := map[name := l4]);
    var c5 := c0.(lanes := map[name := l5]);
    var c6 := c0.(lanes := map[name := Advance(l5, 0, fine)]);
    RunOne(c0, steps, c1);
    RunOne(c1, steps[1..], c2);
    RunOne(c2, steps[2..], c3);
    RunOne(c3, steps[3..], c4);
    RunOne(c4, steps[4..], c5);
    RunOne(c5, steps[5..], c6);
    assert Run(c6, steps[6..]) == c6;
  }

  /** The handlers of a lane are these, at these stages. */
  ghost predicate Handlers(lane: Lane, packets: seq<Packet>, stages: seq<Stage>)
    requires |packets| == |stages|
  {
    |lane.running| == |packets| && forall i :: 0 <= i < |packets| ==> lane.running[i].packet == packets[i] && lane.running[i].stage == stages[i]
  }

  lemma BatchedLane(batch: Packet, other: Packet)
    requires batch.kind.Batched? && !Serial(batch)
    ensures var fine, count := Outcome(false, false, false), batch.kind.count;
            var l2 := Arrive(Arrive(IDLE, batch), other);
            var l3 := Advance(l2, 0, fine);
            var l4 := Advance(l3, 0, fine);
            var l5 := Advance(l4, 0, fine);
            && Handlers(l2, [batch], [Filtering]) && Handlers(l3, [batch], [Decoding]) && Handlers(l4, [batch], [Delivering(count)])
            && Handlers(l5, [batch, other], [BetweenResults(count - 1), Filtering])
            && Handlers(Advance(l5, 0, fine), [batch, other], [Delivering(count - 1), Filtering])
  {
    var fine, count := Outcome(false, false, false), batch.kind.count;
    var l2 := Arrive(Arrive(IDLE, batch), other);
    assert Handlers(l2, [batch], [Filtering]) && l2.queue == [other] && l2.locked;
    var l3 := Advance(l2, 0, fine);
    assert Handlers(l3, [batch], [Decoding]) && l3.queue == [other] && l3.locked;
    var l4 := Advance(l3, 0, fine);
    assert Handlers(l4, [batch], [Delivering(count)]) && l4.queue == [other] && l4.locked;
    var l5 := Advance(l4, 0, fine);
    assert Handlers(l5, [batch, other], [BetweenResults(count - 1), Filtering]);
  }

  lemma RunOne(c: Connection, steps: seq<Step>, next: Connection)
    requires steps != [] && Enabled(c, steps[0]) && next == After(c, steps[0])
    ensures Run(c, steps) == Run(next, steps[1..])
  {
  }

  // ---- a batch alone

  /** The first handler gets `n` answers in a row, none of which stands in its way. */
  function AdvanceBy(lane: Lane, n: nat): Lane
    decreases n
  {
    if n == 0 || lane.running == [] then lane else AdvanceBy(Advance(lane, 0, Outcome(false, false, false)), n - 1)
  }

  /** The results of a batch, in order. */
  function Parts(batch: Packet, count: nat): (heard: seq<Heard>)
    ensures |heard| == count
  {
    seq(count, k requires 0 <= k < count => Heard(batch, Part(batch.content, k)))
  }

  /** The handler of a batch has `left` results to go, the first of which the listeners have. */
  ghost predicate AtResult(lane: Lane, batch: Packet, left: nat) {
    && batch.kind.Batched? && 1 <= left <= batch.kind.count
    && |lane.running| == 1 && lane.running[0].packet == batch && lane.running[0].stage == Delivering(left)
    && lane.queue == [] && lane.finished == [] && lane.log == Parts(batch, batch.kind.count - left + 1)
  }

  lemma NextAtResult(lane: Lane, batch: Packet, left: nat)
    requires AtResult(lane, batch, left) && left > 1
    ensures AtResult(AdvanceBy(lane, 2), batch, left - 1)
  {
    var fine, count := Outcome(false, false, false), batch.kind.count;
    var between := Advance(lane, 0, fine);
    assert |between.running| == 1 && between.running[0].packet == batch && between.running[0].stage == BetweenResults(left - 1);
    var next := Advance(between, 0, fine);
    assert next.log == lane.log + [Heard(batch, Part(batch.content, count - (left - 1)))];
    assert AdvanceBy(lane, 2) == AdvanceBy(between, 1) == AdvanceBy(next, 0) == next;
    assert Parts(batch, count - left + 2) == Parts(batch, count - left + 1) + [Heard(batch, Part(batch.content, count - left + 1))];
  }

  lemma {:induction false} AdvanceMore(lane: Lane, m: nat, n: nat)
    ensures AdvanceBy(lane, m + n) == AdvanceBy(AdvanceBy(lane, m), n)
    decreases m
  {
    hide Advance;
    if m > 0 && lane.running != [] {
      AdvanceMore(Advance(lane, 0, Outcome(false, false, false)), m - 1, n);
    }
  }

  /** The batch is done with, its lane is open, and the listeners heard all of its results in order. */
  ghost predicate HeardOut(lane: Lane, batch: Packet) {
    && batch.kind.Batched? && lane.running == [] && !lane.locked && PacketsDone(lane.finished) == [batch]
    && lane.log == Parts(batch, batch.kind.count)
  }

  lemma {:induction false} ResultsInOrder(lane: Lane, batch: Packet, left: nat)
    requires AtResult(lane, batch, left)
    ensures HeardOut(AdvanceBy(lane, 2 * left - 1), batch)
    decreases left
  {
    hide AdvanceBy;
    if left == 1 {
      LastResult(lane, batch);
    } else {
      NextAtResult(lane, batch, left);
      ResultsInOrder(AdvanceBy(lane, 2), batch, left - 1);
      AdvanceMore(lane, 2, 2 * left - 3);
    }
  }

  lemma LastResult(lane: Lane, batch: Packet)
    requires AtResult(lane, batch, 1)
    ensures HeardOut(AdvanceBy(lane, 1), batch)
  {
    var next := Advance(lane, 0, Outcome(false, false, false));
    assert next.running == [] && PacketsDone(next.finished) == [batch];
    assert AdvanceBy(lane, 1) == AdvanceBy(next, 0);
  }

  /** On an idle lane, a batch that nothing stands in the way of is heard result by result, in order. */
  lemma BatchIsHeardInOrder(batch: Packet)
    requires batch.kind.Batched? && batch.kind.count > 0
    ensures HeardOut(AdvanceBy(Arrive(IDLE, batch), 2 * batch.kind.count + 1), batch)
  {
    hide AdvanceBy;
    var start, count := Arrive(IDLE, batch), batch.kind.count;
    FirstResult(batch);
    ResultsInOrder(AdvanceBy(start, 2), batch, count);
    AdvanceMore(start, 2, 2 * count - 1);
  }

  lemma FirstResult(batch: Packet)
    requires batch.kind.Batched? && batch.kind.count > 0
    ensures AtResult(AdvanceBy(Arrive(IDLE, batch), 2), batch, batch.kind.count)
  {
    var fine, start := Outcome(false, false, false), Arrive(IDLE, batch);
    assert |start.running| == 1 && start.running[0].packet == batch && start.running[0].stage == Filtering && start.queue == [];
    var decoding := Advance(start, 0, fine);
    assert |decoding.running| == 1 && decoding.running[0].packet == batch && decoding.running[0].stage == Decoding && decoding.queue == [];
    var first := Advance(decoding, 0, fine);
    assert first.log == [] + [Heard(batch, Part(batch.content, 0))] == Parts(batch, 1);
    assert AdvanceBy(start, 2) == AdvanceBy(decoding, 1) == AdvanceBy(first, 0) == first;
  }

  // ---- the object

  /** The part of a lane that the connection keeps in its fields. */
  datatype Gate = Gate(locked: bool, queue: seq<Packet>)

  function GateOf(lane: Lane): Gate {
    Gate(lane.locked, lane.queue)
  }

  /** A gate lets a packet through, or keeps it. */
  function HandleGate(gate: Gate, packet: Packet): (Gate, seq<Packet>) {
    if gate.locked then (gate.(queue := gate.queue + [packet]), []) else (gate.(locked := true), [packet])
  }

  function ReleaseGate(gate: Gate): (Gate, seq<Packet>) {
    if gate.queue == [] then (gate.(locked := false), []) else HandleGate(Gate(false, gate.queue[1..]), gate.queue[0])
  }

  function Started(packets: seq<Packet>): seq<Task> {
    seq(|packets|, i requires 0 <= i < |packets| => Task(packets[i], Filtering, []))
  }

  /** What the fields decide is all that `Handle` and `Release` do to a lane. */
  lemma GatesDecide(lane: Lane, packet: Packet)
    ensures var (gate, started) := HandleGate(GateOf(lane), packet);
            Handle(lane, packet) == lane.(locked := gate.locked, queue := gate.queue, running := lane.running + Started(started))
    ensures var (gate, started) := ReleaseGate(GateOf(lane));
            Release(lane) == lane.(locked := gate.locked, queue := gate.queue, running := lane.running + Started(started))
  {
    assert Started([packet]) == [Task(packet, Filtering, [])];
    assert Started([]) == [] && lane.running + [] == lane.running;
    if lane.queue != [] {
      assert Started([lane.queue[0]]) == [Task(lane.queue[0], Filtering, [])];
    }
  }

  /** The fields that change across awaits: the ordinary lock and queue, and those of every asynchronous tag. */
  class Receiver {
    const asyncTags: set<Tag>
    var listenLock: bool
    var packetQueue: seq<Packet>
    var asyncData: map<Tag, Gate>

    constructor (asyncTags: set<Tag>)
      ensures Valid() && this.asyncTags == asyncTags && forall name :: GateAt(name) == GateOf(IDLE)
    {
      this.asyncTags := asyncTags;
      listenLock, packetQueue, asyncData := false, [], map tag | tag in asyncTags :: Gate(false, []);
    }

    ghost predicate Valid()
      reads this
    {
      asyncData.Keys == asyncTags
    }

    function GateAt(name: LaneName): Gate
      reads this
    {
      match name
      case Ordinary => Gate(listenLock, packetQueue)
      case Async(tag) => if tag in asyncData then asyncData[tag] else Gate(false, [])
    }

    function NameOf(packet: Packet): LaneName {
      if packet.tag in asyncTags then Async(packet.tag) else Ordinary
    }

    /** `messageHandler` up to its first await: the packets whose handling starts. */
    method MessageHandler(packet: Packet) returns (started: seq<Packet>)
      requires Valid()
      modifies this
      ensures Valid()
      ensures (GateAt(NameOf(packet)), started) == HandleGate(old(GateAt(NameOf(packet))), packet)
      ensures forall name :: name != NameOf(packet) ==> GateAt(name) == old(GateAt(name))
    {
      var isAsync := packet.tag in asyncTags;
      var locked := if isAsync then asyncData[packet.tag].locked else listenLock;
      if locked {
        if isAsync {
          asyncData := asyncData[packet.tag := Gate(true, asyncData[packet.tag].queue + [packet])];
        } else {
          packetQueue := packetQueue + [packet];
        }
        return [];
      }
      if isAsync {
        asyncData := asyncData[packet.tag := Gate(true, asyncData[packet.tag].queue)];
      } else {
        listenLock := true;
      }
      return [packet];
    }

    /** `releasePacketLock` for the lane of a finished packet; what it starts next belongs to the same lane. */
    method ReleasePacketLock(name: LaneName) returns (started: seq<Packet>)
      requires Valid() && (name.Async? ==> name.tag in asyncTags)
      requires GateAt(name).queue != [] ==> NameOf(GateAt(name).queue[0]) == name
      modifies this
      ensures Valid()
      ensures (GateAt(name), started) == ReleaseGate(old(GateAt(name)))
      ensures forall other :: other != name ==> GateAt(other) == old(GateAt(other))
    {
      var queue := GateAt(name).queue;
      var rest := if |queue| > 0 then queue[1..] else [];
      match name {
        case Ordinary =>
          listenLock := false;
          packetQueue := rest;
        case Async(tag) =>
          asyncData := asyncData[tag := Gate(false, rest)];
      }
      started := [];
      if |queue| > 0 {
        started := MessageHandler(queue[0]);
      }
    }
  }
}
