/** The room manager as it is built: shared objects, maps of pointers and a list with back-pointers. */
module RoomManager {
  import opened Common
  import opened LinkedList
  import D = Directory
  import I = DirectoryInvariant

  class Agent {
    const fd: int
    var roomID: int
    var username: string
    var destroyed: bool

    constructor (fd: int)
      ensures this.fd == fd && roomID == 0 && username == "" && !destroyed
    {
      this.fd := fd;
      roomID, username, destroyed := 0, "", false;
    }
  }

  class Room {
    const id: int
    var node: Element?<int>
    var members: set<int>

    constructor (id: int)
      ensures this.id == id && node == null && members == {}
    {
      this.id := id;
      node, members := null, {};
    }

    method Join(fd: int) returns (state: D.RoomState)
      modifies `members
      ensures (members, state) == (var (r, st) := D.RoomJoin(D.Room(old(members), node != null), fd); (r.members, st))
    {
      var l := |members|;
      if l >= D.MAX_MEMBERS {
        return D.Invalid;
      }
      members := members + {fd};
      if l + 1 == D.MAX_MEMBERS {
        return D.Full;
      }
      return D.Valid;
    }

    method Leave(fd: int)
      modifies `members
      ensures members == old(members) - {fd}
    {
      members := members - {fd};
    }
  }

  class Manager {
    var roomIDBase: int
    var rooms: map<int, Room>
    const validRooms: List<int>
    var players: map<int, Agent>
    var playersByName: map<string, Agent>
    var names: set<string>

    ghost var agents: map<int, Agent> // every agent that ever connected
    ghost var roomObjects: set<Room>
    ghost var agentObjects: set<Agent>

    ghost predicate RoomsAre(base: int, vs: map<int, D.Room>)
      reads `roomIDBase, `rooms, `roomObjects, roomObjects
    {
      && roomIDBase == base
      && rooms.Keys == vs.Keys
      && (forall id :: id in rooms ==>
            && rooms[id] in roomObjects && rooms[id].id == id
            && rooms[id].members == vs[id].members && (rooms[id].node != null <==> vs[id].listed))
    }

    /** Every list element is the back-pointer of the room it names. */
    ghost predicate ListIs(ids: seq<int>)
      reads `rooms, `roomObjects, validRooms, roomObjects`node
    {
      && |validRooms.items| == |ids|
      && (forall k :: 0 <= k < |ids| ==>
            && ids[k] in rooms && rooms[ids[k]] in roomObjects
            && validRooms.items[k].value == ids[k]
            && rooms[ids[k]].node == validRooms.items[k])
    }

    ghost predicate AgentsAre(vs: map<int, D.Agent>)
      reads `agents, `agentObjects, agentObjects
    {
      && agents.Keys == vs.Keys
      && (forall fd :: fd in agents ==>
            && agents[fd] in agentObjects && agents[fd].fd == fd && agents[fd].roomID == vs[fd].roomID
            && agents[fd].username == vs[fd].username && agents[fd].destroyed == vs[fd].destroyed)
    }

    ghost predicate PlayersAre(fds: set<int>, byName: map<string, int>)
      reads `agents, `players, `playersByName
    {
      && players.Keys == fds && (forall fd :: fd in players ==> fd in agents && players[fd] == agents[fd])
      && playersByName.Keys == byName.Keys
      && (forall n :: n in playersByName ==> byName[n] in agents && playersByName[n] == agents[byName[n]])
    }

    /** These objects stand for the directory `s`. */
    ghost predicate Linked(s: D.Dir)
      reads this, validRooms, roomObjects, agentObjects
    {
      && RoomsAre(s.base, s.rooms) && ListIs(s.valid)
      && AgentsAre(s.agents) && PlayersAre(s.players, s.byName) && names == s.names
    }

    constructor ()
      ensures Linked(D.EMPTY) && fresh(validRooms)
    {
      roomIDBase, rooms, players, playersByName, names := 0, map[], map[], map[], {};
      validRooms := new List();
      agents, roomObjects, agentObjects := map[], {}, {};
    }

    method NewTid() returns (id: int)
      modifies `roomIDBase
      ensures id == roomIDBase == D.NextTid(old(roomIDBase))
    {
      if roomIDBase == D.MAX_INT64 { roomIDBase := 0; }
      roomIDBase := roomIDBase + 1;
      return roomIDBase;
    }

    method Push(r: Room)
      modifies validRooms, r`node
      ensures r.node != null && fresh(r.node) && r.node.value == r.id
      ensures validRooms.items == old(validRooms.items) + [r.node]
    {
      var n := validRooms.PushBack(r.id);
      r.node := n;
    }

    method AddRoom(ghost s: D.Dir) returns (r: Room)
      requires RoomsAre(s.base, s.rooms) && ListIs(s.valid)
      requires D.NextTid(s.base) !in s.rooms && D.NextTid(s.base) !in s.valid
      modifies `roomIDBase, `rooms, `roomObjects, validRooms
      ensures var t := D.AddRoom(s); RoomsAre(t.base, t.rooms) && ListIs(t.valid)
      ensures fresh(r) && r.id == D.AddRoom(s).base && r.node != null && roomObjects == old(roomObjects) + {r}
      ensures r.id in rooms && rooms[r.id] == r
    {
      var id := NewTid();
      r := new Room(id);
      Push(r);
      rooms := rooms[id := r];
      roomObjects := roomObjects + {r};
    }

    /** Enter the front room and unlist it when it is full. */
    method Seat(r: Room, fd: int, ghost s: D.Dir) returns (ghost t: D.Dir)
      requires RoomsAre(s.base, s.rooms) && ListIs(s.valid)
      requires s.valid != [] && s.valid[0] !in s.valid[1..] && r.id == s.valid[0]
      requires r.id in rooms && rooms[r.id] == r && r.node != null
      modifies validRooms, r`members, r`node
      ensures t.agents == s.agents && t.players == s.players && t.byName == s.byName && t.names == s.names
      ensures roomObjects == old(roomObjects)
      ensures t == D.Seat(s, fd, r.id) && RoomsAre(t.base, t.rooms) && ListIs(t.valid)
    {
      t := D.Seat(s, fd, r.id);
      var state := r.Join(fd);
      if state == D.Full {
        assert r.node == validRooms.items[0];
        validRooms.Remove(r.node);
        r.node := null;
      }
    }

    /** `Seat`, seen from the whole directory. */
    method SeatRoom(r: Room, fd: int, ghost s: D.Dir) returns (ghost t: D.Dir)
      requires Linked(s) && s.valid != [] && s.valid[0] !in s.valid[1..] && r.id == s.valid[0]
      requires r.id in rooms && rooms[r.id] == r && r.node != null
      modifies validRooms, r`members, r`node
      ensures t == D.Seat(s, fd, r.id) && t.agents == s.agents && Linked(t)
    {
      t := Seat(r, fd, s);
    }

    method Note(p: Agent, username: string, id: int, ghost s: D.Dir) returns (ghost t: D.Dir)
      requires Linked(s) && p.fd in agents && agents[p.fd] == p
      modifies `players, `playersByName, p`roomID
      ensures t == D.Note(s, p.fd, username, id) && Linked(t)
    {
      t := D.Note(s, p.fd, username, id);
      p.roomID := id;
      players := players[p.fd := p];
      playersByName := playersByName[username := p];
    }

    /** The part of `Join` after the room is found. */
    method Enter(p: Agent, username: string, room: Room, ghost s: D.Dir) returns (ghost t: D.Dir)
      requires Linked(s) && p.fd in agents && agents[p.fd] == p
      requires s.valid != [] && s.valid[0] !in s.valid[1..] && room.id == s.valid[0]
      requires room.id in rooms && rooms[room.id] == room && room.node != null
      modifies `players, `playersByName, validRooms, room`members, room`node, p`roomID
      ensures roomObjects == old(roomObjects)
      ensures t == D.Enter(s, p.fd, username, room.id) && Linked(t)
    {
      t := SeatRoom(room, p.fd, s);
      t := Note(p, username, room.id, t);
    }

    /** `AddRoom`, seen from the whole directory. */
    method OpenRoom(ghost s: D.Dir) returns (r: Room, ghost t: D.Dir)
      requires Linked(s) && s.valid == [] && D.NextTid(s.base) !in s.rooms
      modifies `roomIDBase, `rooms, `roomObjects, validRooms
      ensures t == D.AddRoom(s) && Linked(t)
      ensures fresh(r) && r.id == t.base && r.node != null && roomObjects == old(roomObjects) + {r}
      ensures r.id in rooms && rooms[r.id] == r
    {
      r := AddRoom(s);
      t := D.AddRoom(s);
    }

    method EnterNew(p: Agent, username: string, ghost s: D.Dir) returns (id: int, ghost t: D.Dir)
      requires Linked(s) && s.valid == [] && D.NextTid(s.base) !in s.rooms && p.fd in agents && agents[p.fd] == p
      modifies `roomIDBase, `rooms, `players, `playersByName, `roomObjects, validRooms, p`roomID
      ensures var u := D.AddRoom(s); id == u.base && t == D.Enter(u, p.fd, username, id)
      ensures Linked(t) && forall o :: o in roomObjects && o !in old(roomObjects) ==> fresh(o)
    {
      var room;
      room, t := OpenRoom(s);
      id := room.id;
      t := Enter(p, username, room, t);
    }

    /** The part of `Join` after the name is taken. */
    method Admit(p: Agent, username: string, ghost s: D.Dir) returns (r: Result<int, D.JoinError>, ghost t: D.Dir)
      requires Linked(s) && JoinReady(s) && p.fd in agents && agents[p.fd] == p
      modifies `roomIDBase, `rooms, `players, `playersByName, `roomObjects, validRooms, roomObjects, p`roomID
      ensures (t, r) == D.Admit(s, p.fd, username) && Linked(t)
      ensures (r.Ok? ==> p.roomID == r.value) && r != Err(D.DuplicateName)
      ensures (forall o :: o in roomObjects && o !in old(roomObjects) ==> fresh(o))
    {
      SameSize(rooms, s.rooms);
      var id;
      if validRooms.items == [] {
        if |rooms| >= D.MAX_ROOMS {
          return Err(D.NoRoomValid), s;
        }
        id, t := EnterNew(p, username, s);
      } else {
        id := validRooms.items[0].value;
        t := Enter(p, username, rooms[id], s);
      }
      return Ok(id), t;
    }

    /** mgr.go's `Join`. */
    method Join(p: Agent, username: string, ghost s: D.Dir) returns (r: Result<int, D.JoinError>, ghost t: D.Dir)
      requires Linked(s) && JoinReady(s) && p.fd in agents && agents[p.fd] == p
      modifies `roomIDBase, `rooms, `players, `playersByName, `names, `roomObjects, validRooms, roomObjects, p`roomID
      ensures (t, r) == D.Join(s, p.fd, username) && Linked(t)
      ensures r.Ok? ==> p.roomID == r.value
      ensures r == Err(D.DuplicateName) <==> username in old(names)
      ensures (forall o :: o in roomObjects && o !in old(roomObjects) ==> fresh(o))
    {
      if username in names {
        return Err(D.DuplicateName), s;
      }
      names := names + {username};
      r, t := Admit(p, username, s.(names := s.names + {username}));
    }

    method Vacate(r: Room, fd: int, ghost s: D.Dir) returns (ghost t: D.Dir)
      requires RoomsAre(s.base, s.rooms) && ListIs(s.valid)
      requires r.id in rooms && rooms[r.id] == r && (r.node == null ==> r.id !in s.valid)
      modifies validRooms, r`members, r`node
      ensures t.agents == s.agents && t.players == s.players && t.byName == s.byName && t.names == s.names
      ensures t == D.Vacate(s, fd, r.id) && RoomsAre(t.base, t.rooms) && ListIs(t.valid)
    {
      t := D.Vacate(s, fd, r.id);
      r.Leave(fd);
      if r.node == null {
        Push(r);
      }
    }

    method Forget(p: Agent, ghost s: D.Dir) returns (ghost t: D.Dir)
      requires AgentsAre(s.agents) && PlayersAre(s.players, s.byName) && p.fd in agents && agents[p.fd] == p
      modifies `players, `playersByName
      ensures t.base == s.base && t.rooms == s.rooms && t.valid == s.valid && t.names == s.names && t.agents == s.agents
      ensures t == D.Forget(s, p.fd) && PlayersAre(t.players, t.byName)
    {
      t := D.Forget(s, p.fd);
      players := players - {p.fd};
      playersByName := playersByName - {p.username};
    }

    /** `Vacate`, seen from the whole directory. */
    method VacateRoom(r: Room, fd: int, ghost s: D.Dir) returns (ghost t: D.Dir)
      requires Linked(s) && r.id in rooms && rooms[r.id] == r && (r.node == null ==> r.id !in s.valid)
      modifies validRooms, r`members, r`node
      ensures t == D.Vacate(s, fd, r.id) && Linked(t)
    {
      t := Vacate(r, fd, s);
    }

    /** `Forget`, seen from the whole directory. */
    method ForgetPlayer(p: Agent, ghost s: D.Dir) returns (ghost t: D.Dir)
      requires Linked(s) && p.fd in agents && agents[p.fd] == p
      modifies `players, `playersByName
      ensures t == D.Forget(s, p.fd) && Linked(t)
    {
      t := Forget(p, s);
    }

    /** mgr.go's `Leave`. */
    method Leave(fd: int, roomID: int, ghost s: D.Dir) returns (r: Result<(), D.LeaveError>, ghost t: D.Dir)
      requires Linked(s) && s.players <= s.agents.Keys
      requires forall id :: id in s.rooms && !s.rooms[id].listed ==> id !in s.valid
      modifies `players, `playersByName, validRooms, roomObjects
      ensures (t, r) == D.Leave(s, fd, roomID) && Linked(t)
    {
      if roomID !in rooms {
        return Err(D.RoomNotFound), s;
      }
      t := VacateRoom(rooms[roomID], fd, s);
      if fd !in players {
        return Err(D.PlayerNotFound), t;
      }
      t := ForgetPlayer(players[fd], t);
      return Ok(()), t;
    }
  }

  lemma SameSize<A, B>(m: map<int, A>, n: map<int, B>)
    requires m.Keys == n.Keys
    ensures |m| == |n|
  {
    assert |m| == |m.Keys| && |n| == |n.Keys|;
  }

  ghost predicate JoinReady(s: D.Dir) {
    && D.FrontExists(s)
    && (s.valid == [] ==> D.NextTid(s.base) !in s.rooms)
    && (s.valid != [] ==> s.valid[0] !in s.valid[1..])
  }

  lemma InvJoinReady(s: D.Dir)
    requires I.Inv(s)
    ensures JoinReady(s) && D.Ready(s)
  {
    I.InvReady(s);
  }
}
