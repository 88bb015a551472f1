/**
 What every run of the directory keeps.  `Inv` holds whatever clients send; `Exact` needs the
 guard that a joined player does not log in under another name.
 */
module DirectoryInvariant {
  import opened Directory

  ghost predicate NoDup(ids: seq<int>) {
    forall i, j :: 0 <= i < j < |ids| ==> ids[i] != ids[j]
  }

  ghost predicate RoomOk(r: Room) {
    && (r.listed ==> |r.members| < MAX_MEMBERS)
    && (!r.listed ==> MAX_MEMBERS - 1 <= |r.members| <= MAX_MEMBERS)
  }

  /** Rooms are numbered 1..base, and the list holds exactly the rooms with a back-pointer, once each. */
  ghost predicate RoomsOk(base: int, rooms: map<int, Room>, valid: seq<int>) {
    && 0 <= base <= MAX_ROOMS
    && (forall id :: id in rooms <==> 1 <= id <= base)
    && |rooms| == base
    && NoDup(valid)
    && (forall id :: id in valid <==> id in rooms && rooms[id].listed)
    && (forall id :: id in rooms ==> RoomOk(rooms[id]))
  }

  ghost predicate AgentOk(s: Dir, fd: int)
    requires fd in s.agents
  {
    var a := s.agents[fd];
    && (fd in s.players <==> !a.destroyed && a.roomID != 0)
    && (fd in s.players ==> a.roomID in s.rooms && fd in s.rooms[a.roomID].members)
    && (a.username == "" || a.username in s.names)
  }

  ghost predicate Inv(s: Dir) {
    && RoomsOk(s.base, s.rooms, s.valid)
    && s.players <= s.agents.Keys
    && (forall fd :: fd in s.agents ==> AgentOk(s, fd))
  }

  lemma InvReady(s: Dir)
    requires Inv(s)
    ensures Ready(s)
  {
    if s.valid != [] { assert s.valid[0] in s.valid; }
  }

  lemma InvEmpty()
    ensures Inv(EMPTY)
  {}

  lemma WithoutFront(ids: seq<int>)
    requires ids != [] && NoDup(ids)
    ensures NoDup(Without(ids, ids[0]))
    ensures forall id :: id in Without(ids, ids[0]) <==> id in ids && id != ids[0]
  {
    assert Without(ids, ids[0]) == ids[1..];
    assert ids == [ids[0]] + ids[1..];
  }

  lemma AddRoomOk(s: Dir)
    requires RoomsOk(s.base, s.rooms, s.valid) && s.valid == [] && |s.rooms| < MAX_ROOMS
    ensures var t := AddRoom(s);
      && RoomsOk(t.base, t.rooms, t.valid) && t.valid == [t.base]
      && t.base == s.base + 1 && t.base !in s.rooms
  {}

  lemma MembersChange(m: set<int>, fd: int)
    ensures |m| <= |m + {fd}| <= |m| + 1
    ensures fd !in m ==> |m + {fd}| == |m| + 1
    ensures fd in m ==> |m - {fd}| == |m| - 1
  {
    if fd in m { assert m + {fd} == m; }
  }

  lemma ReplaceRoom(base: int, rooms: map<int, Room>, valid: seq<int>, id: int, r: Room)
    requires RoomsOk(base, rooms, valid) && id in rooms && RoomOk(r) && r.listed == rooms[id].listed
    ensures RoomsOk(base, rooms[id := r], valid)
  {
    assert rooms[id := r].Keys == rooms.Keys;
  }

  lemma UnlistFront(base: int, rooms: map<int, Room>, valid: seq<int>, r: Room)
    requires RoomsOk(base, rooms, valid) && valid != [] && valid[0] in rooms && RoomOk(r) && !r.listed
    ensures RoomsOk(base, rooms[valid[0] := r], Without(valid, valid[0]))
  {
    assert rooms[valid[0] := r].Keys == rooms.Keys;
    WithoutFront(valid);
  }

  /** The front room always has space, so `Room.Join` never answers `invalid` and keeps its bound. */
  lemma EnterOk(s: Dir, fd: int, name: string)
    requires RoomsOk(s.base, s.rooms, s.valid) && s.valid != [] && fd in s.agents
    ensures var id := s.valid[0];
      && id in s.rooms && |s.rooms[id].members| < MAX_MEMBERS
      && RoomJoin(s.rooms[id], fd).1 != Invalid
      && var t := Enter(s, fd, name, id); RoomsOk(t.base, t.rooms, t.valid)
  {
    var id := s.valid[0];
    assert id in s.valid;
    var (r, state) := RoomJoin(s.rooms[id], fd);
    MembersChange(s.rooms[id].members, fd);
    if state == Full {
      UnlistFront(s.base, s.rooms, s.valid, r.(listed := false));
    } else {
      ReplaceRoom(s.base, s.rooms, s.valid, id, r);
    }
  }

  /** The agents' side of entering a room. */
  lemma EnterAgents(s: Dir, fd: int, name: string, id: int)
    requires id in s.rooms && fd in s.agents && !s.agents[fd].destroyed && id != 0 && s.players <= s.agents.Keys
    requires forall g :: g in s.agents ==> AgentOk(s, g)
    requires |s.rooms[id].members| < MAX_MEMBERS
    ensures var t := Enter(s, fd, name, id);
      && t.players <= t.agents.Keys
      && forall g :: g in t.agents ==> AgentOk(t, g)
  {
    var t := Enter(s, fd, name, id);
    forall g | g in t.agents ensures AgentOk(t, g) {
      assert AgentOk(s, g);
    }
  }

  lemma AgentsKept(s: Dir, t: Dir)
    requires forall g :: g in s.agents ==> AgentOk(s, g)
    requires t.agents == s.agents && t.players == s.players && s.names <= t.names
    requires forall id :: id in s.rooms ==> id in t.rooms && t.rooms[id].members == s.rooms[id].members
    ensures forall g :: g in t.agents ==> AgentOk(t, g)
  {
    forall g | g in s.agents ensures AgentOk(t, g) { assert AgentOk(s, g); }
  }

  lemma EnterFront(s: Dir, fd: int, name: string)
    requires Inv(s) && fd in s.agents && !s.agents[fd].destroyed && s.valid != []
    ensures s.valid[0] in s.rooms && Inv(Enter(s, fd, name, s.valid[0]))
  {
    EnterOk(s, fd, name);
    EnterAgents(s, fd, name, s.valid[0]);
  }

  lemma AddRoomInv(s: Dir)
    requires Inv(s) && s.valid == [] && |s.rooms| < MAX_ROOMS
    ensures Inv(AddRoom(s)) && AddRoom(s).valid == [AddRoom(s).base]
  {
    AddRoomOk(s);
    AgentsKept(s, AddRoom(s));
  }

  lemma AdmitOk(s: Dir, fd: int, name: string)
    requires Inv(s) && fd in s.agents && !s.agents[fd].destroyed && FrontExists(s)
    ensures Inv(Admit(s, fd, name).0)
    ensures Admit(s, fd, name).0.names == s.names
  {
    if s.valid != [] {
      EnterFront(s, fd, name);
    } else if |s.rooms| < MAX_ROOMS {
      AddRoomInv(s);
      EnterFront(AddRoom(s), fd, name);
    }
  }

  lemma JoinOk(s: Dir, fd: int, name: string)
    requires Inv(s) && fd in s.agents && !s.agents[fd].destroyed
    ensures Ready(s) && Inv(Join(s, fd, name).0)
    ensures name in Join(s, fd, name).0.names
  {
    InvReady(s);
    if name !in s.names {
      var t := s.(names := s.names + {name});
      AgentsKept(s, t);
      AdmitOk(t, fd, name);
    }
  }

  lemma SetUsernameOk(s: Dir, fd: int, name: string)
    requires Inv(s) && fd in s.agents && name in s.names
    ensures Inv(SetUsername(s, fd, name))
  {
    var t := SetUsername(s, fd, name);
    forall g | g in t.agents ensures AgentOk(t, g) { assert AgentOk(s, g); }
  }

  lemma LeaveRooms(s: Dir, fd: int)
    requires Inv(s) && fd in s.players
    ensures var t := Leave(s, fd, s.agents[fd].roomID).0; RoomsOk(t.base, t.rooms, t.valid)
  {
    assert AgentOk(s, fd);
    var id := s.agents[fd].roomID;
    MembersChange(s.rooms[id].members, fd);
    assert RoomOk(s.rooms[id]);
  }

  lemma DestroyOk(s: Dir, fd: int)
    requires Inv(s) && fd in s.agents && !s.agents[fd].destroyed
    ensures Ready(s) && Inv(Step(s, Destroy(fd)))
  {
    InvReady(s);
    assert AgentOk(s, fd);
    if fd in s.players { LeaveRooms(s, fd); }
    var t := Step(s, Destroy(fd));
    forall g | g in t.agents ensures AgentOk(t, g) { assert AgentOk(s, g); }
  }

  /** Whatever clients send: every step keeps the directory in order. */
  lemma StepKeepsInv(s: Dir, e: Event)
    requires Inv(s) && Legal(s, e)
    ensures Ready(s) && Inv(Step(s, e))
  {
    InvReady(s);
    match e
    case Connect(fd) =>
      var t := Step(s, e);
      forall g | g in t.agents ensures AgentOk(t, g) { assert g != fd ==> AgentOk(s, g); }
    case Login(fd, name) =>
      if !s.agents[fd].destroyed {
        JoinOk(s, fd, name);
        SetUsernameOk(Join(s, fd, name).0, fd, name);
      }
    case JoinRoom(fd) =>
      if !s.agents[fd].destroyed {
        JoinOk(s, fd, s.agents[fd].username);
      }
    case Destroy(fd) => DestroyOk(s, fd);
  }
}
