/**
 * Rooms are kept twice, by connection and by room (`SonicWSServer.ts`, `rust/src/server.rs`). Both directions describe
 * one relation, so that looking a room up gives what a scan over all connections would.
 */
module Rooms {

  type Connection = nat
  type Room = string

  function Of<K, V>(m: map<K, set<V>>, key: K): set<V> {
    if key in m then m[key] else {}
  }

  /** The members of a room by asking every connection. */
  function Scan(connections: set<Connection>, tags: map<Connection, set<Room>>, room: Room): set<Connection> {
    set c | c in connections && room in Of(tags, c)
  }

  ghost predicate Inverse(tags: map<Connection, set<Room>>, tagsInv: map<Room, set<Connection>>) {
    forall c, room :: room in Of(tags, c) <==> c in Of(tagsInv, room)
  }

  /** Takes a connection out of each of the given rooms. */
  function RemoveFrom(tagsInv: map<Room, set<Connection>>, c: Connection, rooms: set<Room>): map<Room, set<Connection>> {
    map room | room in tagsInv :: if room in rooms then tagsInv[room] - {c} else tagsInv[room]
  }

  lemma RemovedFrom(tagsInv: map<Room, set<Connection>>, c: Connection, rooms: set<Room>, room: Room)
    ensures Of(RemoveFrom(tagsInv, c, rooms), room) == Of(tagsInv, room) - if room in rooms then {c} else {}
  {
  }

  datatype Index = Index(connections: set<Connection>, tags: map<Connection, set<Room>>, tagsInv: map<Room, set<Connection>>)

  datatype Operation = Register(c: Connection) | Tag(c: Connection, room: Room, replace: bool) | Leave(c: Connection, room: Room) | Close(c: Connection)

  /** Connections register once and close once; tags and leaving are possible at any time. */
  predicate Enabled(x: Index, op: Operation) {
    match op
    case Register(c) => c !in x.connections
    case Close(c) => c in x.connections
    case _ => true
  }

  function Apply(x: Index, op: Operation): Index {
    match op
    case Register(c) => x.(connections := x.connections + {c})
    case Tag(c, room, replace) =>
      var left := if replace then RemoveFrom(x.tagsInv, c, Of(x.tags, c)) else x.tagsInv;
      x.(tags := x.tags[c := (if replace then {} else Of(x.tags, c)) + {room}], tagsInv := left[room := Of(left, room) + {c}])
    case Leave(c, room) =>
      var members := Of(x.tagsInv, room) - {c};
      x.(tags := if c in x.tags then x.tags[c := x.tags[c] - {room}] else x.tags,
         tagsInv := if members == {} then x.tagsInv - {room} else x.tagsInv[room := members])
    case Close(c) =>
      Index(x.connections - {c}, x.tags - {c}, RemoveFrom(x.tagsInv, c, Of(x.tags, c)))
  }

  /** What anyone would call membership: joined, and neither left, replaced nor closed since. */
  predicate Member(ops: seq<Operation>, c: Connection, room: Room)
    decreases |ops|
  {
    if ops == [] then false
    else
      var earlier, last := ops[..|ops| - 1], ops[|ops| - 1];
      match last
      case Register(_) => Member(earlier, c, room)
      case Tag(d, r, replace) => (d == c && r == room) || (Member(earlier, c, room) && !(d == c && replace))
      case Leave(d, r) => Member(earlier, c, room) && !(d == c && r == room)
      case Close(d) => Member(earlier, c, room) && d != c
  }

  const EMPTY: Index := Index({}, map[], map[])

  function Run(ops: seq<Operation>): Index
    decreases |ops|
  {
    if ops == [] then EMPTY else Apply(Run(ops[..|ops| - 1]), ops[|ops| - 1])
  }

  ghost predicate AllEnabled(ops: seq<Operation>)
    decreases |ops|
  {
    ops == [] || (AllEnabled(ops[..|ops| - 1]) && Enabled(Run(ops[..|ops| - 1]), ops[|ops| - 1]))
  }

  /** The indexes agree. */
  ghost predicate WellFormed(x: Index) {
    Inverse(x.tags, x.tagsInv)
  }

  /** Every tag is put on a connection that is registered at the time. */
  predicate TagsRegistered(ops: seq<Operation>)
    decreases |ops|
  {
    ops == [] ||
    (var earlier, last := ops[..|ops| - 1], ops[|ops| - 1];
     TagsRegistered(earlier) && (last.Tag? ==> last.c in Run(earlier).connections))
  }

  /** Whether `c` is in `room` after an operation, given whether it was before. */
  predicate MemberAfter(op: Operation, c: Connection, room: Room, before: bool) {
    match op
    case Register(_) => before
    case Tag(d, r, replace) => (d == c && r == room) || (before && !(d == c && replace))
    case Leave(d, r) => before && !(d == c && r == room)
    case Close(d) => before && d != c
  }

  /** An operation does the same to both indexes. */
  lemma ApplyAgrees(x: Index, op: Operation, c: Connection, room: Room)
    requires WellFormed(x)
    ensures room in Of(Apply(x, op).tags, c) <==> MemberAfter(op, c, room, room in Of(x.tags, c))
    ensures c in Of(Apply(x, op).tagsInv, room) <==> MemberAfter(op, c, room, room in Of(x.tags, c))
  {
    assert room in Of(x.tags, c) <==> c in Of(x.tagsInv, room);
    match op
    case Register(_) =>
    case Tag(d, r, replace) =>
      RemovedFrom(x.tagsInv, d, Of(x.tags, d), room);
      RemovedFrom(x.tagsInv, d, Of(x.tags, d), r);
    case Leave(d, r) =>
    case Close(d) =>
      RemovedFrom(x.tagsInv, d, Of(x.tags, d), room);
  }

  lemma ApplyKeeps(x: Index, op: Operation)
    requires WellFormed(x)
    ensures WellFormed(Apply(x, op))
  {
    var y := Apply(x, op);
    forall c: Connection, room: Room ensures room in Of(y.tags, c) <==> c in Of(y.tagsInv, room) {
      ApplyAgrees(x, op, c, room);
    }
  }

  /** The relation that a sequence of operations leaves behind. */
  ghost predicate Describes(x: Index, ops: seq<Operation>) {
    && (forall c, room :: room in Of(x.tags, c) <==> Member(ops, c, room))
    && (forall c, room :: c in Of(x.tagsInv, room) <==> Member(ops, c, room))
  }

  /**
   * After every sequence of operations on registered connections both indexes describe exactly the membership that
   * the operations define, so a tagged broadcast reaches exactly the members, as a scan of all connections would.
   */
  lemma {:induction false} IndexesAreMembership(ops: seq<Operation>)
    requires AllEnabled(ops)
    ensures WellFormed(Run(ops)) && Describes(Run(ops), ops)
    decreases |ops|
  {
    hide Apply, Enabled, WellFormed;
    if ops == [] {
      EmptyIsWellFormed();
    } else {
      var earlier, last := ops[..|ops| - 1], ops[|ops| - 1];
      IndexesAreMembership(earlier);
      var x := Run(earlier);
      ApplyKeeps(x, last);
      forall c: Connection, room: Room
        ensures (room in Of(Run(ops).tags, c) <==> Member(ops, c, room)) && (c in Of(Run(ops).tagsInv, room) <==> Member(ops, c, room))
      {
        ApplyAgrees(x, last, c, room);
        assert room in Of(x.tags, c) <==> Member(earlier, c, room);
      }
    }
  }

  lemma EmptyIsWellFormed()
    ensures WellFormed(EMPTY)
  {
  }

  /** The index gives what a scan of the connections would if and only if all members are registered. */
  lemma IndexIsScanIff(x: Index, room: Room)
    requires WellFormed(x)
    ensures Of(x.tagsInv, room) == Scan(x.connections, x.tags, room) <==> Of(x.tagsInv, room) <= x.connections
  {
    forall c: Connection ensures c in Of(x.tagsInv, room) && c in x.connections <==> c in Scan(x.connections, x.tags, room) {
      assert room in Of(x.tags, c) <==> c in Of(x.tagsInv, room);
    }
    if Of(x.tagsInv, room) <= x.connections {
      assert forall c: Connection :: c in Of(x.tagsInv, room) <==> c in Scan(x.connections, x.tags, room);
    } else {
      var c :| c in Of(x.tagsInv, room) && c !in x.connections;
      assert c !in Scan(x.connections, x.tags, room);
    }
  }

  /** Members that were registered when they were tagged are registered still. */
  lemma {:induction false} MembersAreRegistered(ops: seq<Operation>, c: Connection, room: Room)
    requires AllEnabled(ops) && TagsRegistered(ops) && Member(ops, c, room)
    ensures c in Run(ops).connections
    decreases |ops|
  {
    var earlier, last := ops[..|ops| - 1], ops[|ops| - 1];
    if Member(earlier, c, room) {
      MembersAreRegistered(earlier, c, room);
    }
  }

  /** Broadcasting to a tag after any run: exactly the members, and those are registered if they were when tagged. */
  lemma RecipientsAreMembers(ops: seq<Operation>, room: Room)
    requires AllEnabled(ops)
    ensures forall c :: c in Of(Run(ops).tagsInv, room) <==> Member(ops, c, room)
    ensures TagsRegistered(ops) ==> Of(Run(ops).tagsInv, room) == Scan(Run(ops).connections, Run(ops).tags, room)
  {
    hide Run, Member, TagsRegistered, AllEnabled, WellFormed;
    IndexesAreMembership(ops);
    if TagsRegistered(ops) {
      forall c | c in Of(Run(ops).tagsInv, room) ensures c in Run(ops).connections {
        MembersAreRegistered(ops, c, room);
      }
      IndexIsScanIff(Run(ops), room);
    }
  }

  /** A tag put on a closed connection stays: the index names a recipient that no scan finds. */
  lemma TagAfterClose(c: Connection, room: Room)
    ensures var ops := [Register(c), Close(c), Tag(c, room, true)];
            AllEnabled(ops) && Of(Run(ops).tagsInv, room) == {c} && Scan(Run(ops).connections, Run(ops).tags, room) == {}
  {
    var ops := [Register(c), Close(c), Tag(c, room, true)];
    assert ops[..2] == [Register(c), Close(c)] && ops[..2][..1] == [Register(c)] && ops[..2][..1][..0] == [];
    assert Run([]) == EMPTY && Run([Register(c)]).connections == {c} && Run([Register(c)]).tags == map[];
    assert AllEnabled([]) && AllEnabled([Register(c)]) && AllEnabled(ops[..2]);
    assert Run(ops[..2]).connections == {} && Run(ops[..2]).tags == map[] && Run(ops[..2]).tagsInv == map[];
  }

  /** Creating an empty room before removing a member from others changes nothing but its presence. */
  lemma RoomOnDemand(tagsInv: map<Room, set<Connection>>, made: map<Room, set<Connection>>, c: Connection, room: Room, rooms: set<Room>)
    requires made == if room in tagsInv then tagsInv else tagsInv[room := {}]
    ensures room in RemoveFrom(made, c, rooms)
    ensures RemoveFrom(made, c, rooms)[room := RemoveFrom(made, c, rooms)[room] + {c}]
         == RemoveFrom(tagsInv, c, rooms)[room := Of(RemoveFrom(tagsInv, c, rooms), room) + {c}]
    ensures made[room := made[room] + {c}] == tagsInv[room := Of(tagsInv, room) + {c}]
  {
    var left, right := RemoveFrom(made, c, rooms), RemoveFrom(tagsInv, c, rooms);
    assert left[room] == if room in tagsInv then right[room] else {};
    forall other | other in left && other != room ensures other in right && left[other] == right[other] {
    }
    assert left[room := left[room] + {c}] == right[room := Of(right, room) + {c}];
  }

  lemma LastUpdateWins(tags: map<Connection, set<Room>>, c: Connection, first: set<Room>, last: set<Room>)
    ensures tags[c := first][c := last] == tags[c := last]
  {
  }

  lemma TagOnDemand(x: Index, c: Connection, room: Room, replace: bool,
                    held: map<Connection, set<Room>>, made: map<Room, set<Connection>>, left: map<Room, set<Connection>>)
    requires held == if c in x.tags then x.tags else x.tags[c := {}]
    requires made == if room in x.tagsInv then x.tagsInv else x.tagsInv[room := {}]
    requires left == if replace then RemoveFrom(made, c, held[c]) else made
    ensures room in left
    ensures Index(x.connections, held[c := (if replace then {} else held[c]) + {room}], left[room := left[room] + {c}])
         == Apply(x, Tag(c, room, replace))
  {
    RoomOnDemand(x.tagsInv, made, c, room, held[c]);
    assert held[c] == Of(x.tags, c);
  }

  // ---- the TypeScript server

  function Elements(s: seq<Connection>): set<Connection> {
    set c | c in s
  }

  predicate Distinct(s: seq<Connection>) {
    forall i, j :: 0 <= i < j < |s| ==> s[i] != s[j]
  }

  class Server {
    var connections: seq<Connection>
    var tags: map<Connection, set<Room>>
    var tagsInv: map<Room, set<Connection>>

    function State(): Index
      reads this
    {
      Index(Elements(connections), tags, tagsInv)
    }

    ghost predicate Valid()
      reads this
    {
      Distinct(connections) && WellFormed(State())
    }

    constructor ()
      ensures Valid() && State() == EMPTY
    {
      connections, tags, tagsInv := [], map[], map[];
      new;
      assert State() == EMPTY;
      EmptyIsWellFormed();
    }

    method Open(c: Connection)
      requires Valid() && c !in connections
      modifies this
      ensures Valid() && State() == Apply(old(State()), Register(c))
    {
      ApplyKeeps(State(), Register(c));
      connections := connections + [c];
      assert State() == Apply(old(State()), Register(c));
    }

    /** The loop over the rooms of a connection in `tag` and in the `close` handler. */
    method ForgetMember(c: Connection, rooms: set<Room>)
      modifies this`tagsInv
      ensures tagsInv == RemoveFrom(old(tagsInv), c, rooms)
    {
      var todo := rooms;
      assert tagsInv == RemoveFrom(old(tagsInv), c, rooms - todo);
      while todo != {}
        invariant todo <= rooms
        invariant tagsInv == RemoveFrom(old(tagsInv), c, rooms - todo)
        decreases todo
      {
        var room :| room in todo;
        if room in tagsInv {
          tagsInv := tagsInv[room := tagsInv[room] - {c}];
        }
        todo := todo - {room};
      }
      assert rooms - {} == rooms;
    }

    /** `tag`: with `replace` the connection leaves all its rooms first. */
    method AddTag(c: Connection, room: Room, replace: bool)
      requires Valid()
      modifies this`tags, this`tagsInv
      ensures Valid() && State() == Apply(old(State()), Tag(c, room, replace))
    {
      ApplyKeeps(State(), Tag(c, room, replace));
      hide WellFormed, RemoveFrom, Apply, Of, Distinct, Elements;
      ghost var before := State();
      if c !in tags {
        tags := tags[c := {}];
      }
      if room !in tagsInv {
        tagsInv := tagsInv[room := {}];
      }
      ghost var held, made := tags, tagsInv;
      if replace {
        ForgetMember(c, tags[c]);
        tags := tags[c := {}];
        LastUpdateWins(held, c, {}, {} + {room});
      }
      TagOnDemand(before, c, room, replace, held, made, tagsInv);
      tags := tags[c := tags[c] + {room}];
      tagsInv := tagsInv[room := tagsInv[room] + {c}];
    }

    /** `join`: the empty name is refused. */
    method Join(c: Connection, room: Room) returns (ok: bool)
      requires Valid()
      modifies this`tags, this`tagsInv
      ensures Valid() && ok == (room != "")
      ensures State() == if ok then Apply(old(State()), Tag(c, room, false)) else old(State())
    {
      if room == "" {
        return false;
      }
      AddTag(c, room, false);
      return true;
    }

    /** `leave`: a room without members disappears from the index. */
    method LeaveRoom(c: Connection, room: Room)
      requires Valid()
      modifies this`tags, this`tagsInv
      ensures Valid() && State() == Apply(old(State()), Leave(c, room))
    {
      ApplyKeeps(State(), Leave(c, room));
      if c in tags {
        tags := tags[c := tags[c] - {room}];
      }
      if room in tagsInv {
        tagsInv := tagsInv[room := tagsInv[room] - {c}];
        if tagsInv[room] == {} {
          tagsInv := tagsInv - {room};
        }
      }
      assert tagsInv == Apply(old(State()), Leave(c, room)).tagsInv;
    }

    /** The `close` handler: the rooms it returns are kept for recovery. */
    method OnClose(c: Connection) returns (previous: set<Room>)
      requires Valid() && c in connections
      modifies this
      ensures Valid() && State() == Apply(old(State()), Close(c)) && previous == Of(old(tags), c)
    {
      ApplyKeeps(State(), Close(c));
      hide WellFormed;
      previous := Of(tags, c);
      var i :| 0 <= i < |connections| && connections[i] == c;
      ghost var all := connections;
      connections := connections[..i] + connections[i + 1..];
      forall other ensures other in connections <==> other in all && other != c {
        if other in all && other != c {
          var j :| 0 <= j < |all| && all[j] == other;
          assert connections[if j < i then j else j - 1] == other;
        }
      }
      if c in tags {
        ForgetMember(c, previous);
        tags := tags - {c};
      }
      assert State().connections == old(State()).connections - {c};
      assert tags == old(tags) - {c};
      assert tagsInv == RemoveFrom(old(tagsInv), c, previous);
    }

    /** The recipients of a tagged broadcast, from the index: whoever has the tag. */
    method Recipients(room: Room) returns (members: set<Connection>)
      requires Valid()
      ensures members == Scan(tags.Keys, tags, room)
      ensures members == Scan(State().connections, tags, room) <==> members <= State().connections
    {
      members := Of(tagsInv, room);
      IndexIsScanIff(State(), room);
      forall c: Connection ensures c in members <==> c in Scan(tags.Keys, tags, room) {
        assert room in Of(tags, c) <==> c in Of(tagsInv, room);
      }
    }
  }

  // ---- the Rust server: rooms outlive their last member on `leave`, and recipients are looked up again

  /** The same change on both sides. */
  lemma SameChange(before: map<Connection, set<Room>>, inverse: map<Room, set<Connection>>,
                   after: map<Connection, set<Room>>, afterInverse: map<Room, set<Connection>>,
                   c: Connection, removed: set<Room>, added: set<Room>)
    requires Inverse(before, inverse)
    requires forall x: Connection :: Of(after, x) == if x == c then Of(before, c) - removed + added else Of(before, x)
    requires forall y :: Of(afterInverse, y) == Of(inverse, y) - (if y in removed then {c} else {}) + if y in added then {c} else {}
    ensures Inverse(after, afterInverse)
  {
    forall x: Connection, y: Room ensures y in Of(after, x) <==> x in Of(afterInverse, y) {
      assert y in Of(before, x) <==> x in Of(inverse, y);
    }
  }

  class RustServer {
    var connections: map<Connection, string>
    var sessions: map<string, set<Room>>
    var rooms: map<Room, set<Connection>>
    var connectionRooms: map<Connection, set<Room>>

    ghost predicate Valid()
      reads this
    {
      Inverse(connectionRooms, rooms) && forall c :: c in connectionRooms ==> c in connections
    }

    constructor ()
      ensures Valid() && connections == map[]
    {
      connections, sessions, rooms, connectionRooms := map[], map[], map[], map[];
    }

    /** `accept`: a new connection under the next free number, with a session of its own. */
    method Accept(c: Connection, session: string)
      requires Valid() && c !in connections
      modifies this`connections
      ensures Valid() && connections == old(connections)[c := session]
    {
      connections := connections[c := session];
    }

    /** `join`: an error for a connection that is not active. */
    method Join(c: Connection, room: Room) returns (ok: bool)
      requires Valid()
      modifies this`rooms, this`connectionRooms
      ensures Valid() && ok == (c in connections)
      ensures Of(connectionRooms, c) == Of(old(connectionRooms), c) + (if ok then {room} else {})
      ensures forall other: Connection :: other != c ==> Of(connectionRooms, other) == Of(old(connectionRooms), other)
    {
      if c !in connections {
        assert Of(connectionRooms, c) == {};
        return false;
      }
      rooms := rooms[room := Of(rooms, room) + {c}];
      connectionRooms := connectionRooms[c := Of(connectionRooms, c) + {room}];
      SameChange(old(connectionRooms), old(rooms), connectionRooms, rooms, c, {}, {room});
      return true;
    }

    method Leave(c: Connection, room: Room)
      requires Valid()
      modifies this`rooms, this`connectionRooms
      ensures Valid()
      ensures Of(connectionRooms, c) == Of(old(connectionRooms), c) - {room}
      ensures forall other: Connection :: other != c ==> Of(connectionRooms, other) == Of(old(connectionRooms), other)
    {
      if room in rooms {
        rooms := rooms[room := rooms[room] - {c}];
      }
      if c in connectionRooms {
        connectionRooms := connectionRooms[c := connectionRooms[c] - {room}];
      }
      SameChange(old(connectionRooms), old(rooms), connectionRooms, rooms, c, {room}, {});
    }

    /** `remove`: the rooms are kept for recovery under the session of the connection, and empty rooms are dropped on the way. */
    method Remove(c: Connection) returns (memberships: set<Room>)
      requires Valid()
      modifies this
      ensures Valid() && connections == old(connections) - {c} && memberships == Of(old(connectionRooms), c)
      ensures sessions == if c in old(connections) then old(sessions)[old(connections)[c] := memberships] else old(sessions)
      ensures Of(connectionRooms, c) == {} && forall other: Connection :: other != c ==> Of(connectionRooms, other) == Of(old(connectionRooms), other)
    {
      memberships := Of(connectionRooms, c);
      connectionRooms := connectionRooms - {c};
      if c in connections {
        sessions := sessions[connections[c] := memberships];
        connections := connections - {c};
      }
      ghost var saved := sessions;
      var todo := memberships;
      while todo != {}
        invariant todo <= memberships && sessions == saved && connections == old(connections) - {c} && connectionRooms == old(connectionRooms) - {c}
        invariant forall y :: Of(rooms, y) == Of(old(rooms), y) - if y in memberships - todo then {c} else {}
        decreases todo
      {
        var room :| room in todo;
        if room in rooms {
          rooms := rooms[room := rooms[room] - {c}];
          if rooms[room] == {} {
            rooms := rooms - {room};
          }
        }
        todo := todo - {room};
      }
      SameChange(old(connectionRooms), old(rooms), connectionRooms, rooms, c, memberships, {});
    }

    /** Whom `broadcast_room` reaches: indexed members that are still connected. */
    method BroadcastRoom(room: Room) returns (members: set<Connection>)
      requires Valid()
      ensures members == Scan(connections.Keys, connectionRooms, room)
    {
      members := set c | c in Of(rooms, room) && c in connections;
      forall c: Connection ensures c in members <==> c in connections && room in Of(connectionRooms, c) {
        assert room in Of(connectionRooms, c) <==> c in Of(rooms, room);
      }
    }
  }
}
