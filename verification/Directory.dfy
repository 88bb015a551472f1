/**
 The room directory as a value, and one function per handler.  Handlers run one at a time on
 the server's own goroutine, so a run of the server is a sequence of these steps.
 */
module Directory {
  import opened Common

  const MAX_ROOMS := 100
  const MAX_MEMBERS := 100
  const MAX_INT64 := 0x7fff_ffff_ffff_ffff

  /** `listed` says that the room's back-pointer into the list of rooms with space is not nil. */
  datatype Room = Room(members: set<int>, listed: bool)

  /** A connection; `roomID` is 0 until it first joins. */
  datatype Agent = Agent(roomID: int, username: string, destroyed: bool)

  datatype Dir = Dir(
    base: int,                        // roomIDBase
    rooms: map<int, Room>,
    valid: seq<int>,                  // validRooms, front first
    players: set<int>,                // the keys of `players`; each leads to the agent of that fd
    byName: map<string, int>,         // playersByName, by the fd of the agent
    names: set<string>,
    agents: map<int, Agent>           // every agent that ever connected, by fd
  )

  datatype JoinError = DuplicateName | NoRoomValid
  datatype LeaveError = RoomNotFound | PlayerNotFound
  datatype RoomState = Valid | Invalid | Full

  const EMPTY := Dir(0, map[], [], {}, map[], {}, map[])

  function NextTid(base: int): int {
    (if base == MAX_INT64 then 0 else base) + 1
  }

  function Push(s: Dir, id: int): Dir
    requires id in s.rooms
  {
    s.(valid := s.valid + [id], rooms := s.rooms[id := s.rooms[id].(listed := true)])
  }

  function AddRoom(s: Dir): Dir {
    var id := NextTid(s.base);
    s.(base := id, rooms := s.rooms[id := Room({}, true)], valid := s.valid + [id])
  }

  /** room.go's `Join`: the room counts one more member even if the player is already in it. */
  function RoomJoin(r: Room, fd: int): (Room, RoomState) {
    if |r.members| >= MAX_MEMBERS then (r, Invalid)
    else (r.(members := r.members + {fd}), if |r.members| + 1 == MAX_MEMBERS then Full else Valid)
  }

  function Without(ids: seq<int>, id: int): seq<int> {
    if ids == [] then []
    else if ids[0] == id then ids[1..]
    else [ids[0]] + Without(ids[1..], id)
  }

  /** Enter the chosen room and unlist it when it answers `full`. */
  function Seat(s: Dir, fd: int, id: int): Dir
    requires id in s.rooms
  {
    var (r, state) := RoomJoin(s.rooms[id], fd);
    if state == Full
    then s.(rooms := s.rooms[id := r.(listed := false)], valid := Without(s.valid, id))
    else s.(rooms := s.rooms[id := r])
  }

  /** Note the player under its fd and its name. */
  function Note(s: Dir, fd: int, name: string, id: int): Dir
    requires fd in s.agents
  {
    s.(agents := s.agents[fd := s.agents[fd].(roomID := id)],
       players := s.players + {fd},
       byName := s.byName[name := fd])
  }

  /** The second half of `Manager.Join`, once the room is chosen. */
  function Enter(s: Dir, fd: int, name: string, id: int): Dir
    requires id in s.rooms && fd in s.agents
  {
    Note(Seat(s, fd, id), fd, name, id)
  }

  predicate FrontExists(s: Dir) {
    s.valid != [] ==> s.valid[0] in s.rooms
  }

  /** Find a room for the player, or open one. */
  function Admit(s: Dir, fd: int, name: string): (Dir, Result<int, JoinError>)
    requires FrontExists(s) && fd in s.agents
  {
    if s.valid != [] then
      (Enter(s, fd, name, s.valid[0]), Ok(s.valid[0]))
    else if |s.rooms| < MAX_ROOMS then
      var t := AddRoom(s);
      (Enter(t, fd, name, t.base), Ok(t.base))
    else (s, Err(NoRoomValid))
  }

  /** mgr.go's `Join`. A name is used up even when no room is left. */
  function Join(s: Dir, fd: int, name: string): (Dir, Result<int, JoinError>)
    requires FrontExists(s) && fd in s.agents
  {
    if name in s.names then (s, Err(DuplicateName))
    else Admit(s.(names := s.names + {name}), fd, name)
  }

  /** Take the player out of the room and list the room again. */
  function Vacate(s: Dir, fd: int, id: int): Dir
    requires id in s.rooms
  {
    var r := s.rooms[id];
    var t := s.(rooms := s.rooms[id := r.(members := r.members - {fd})]);
    if r.listed then t else Push(t, id)
  }

  function Forget(s: Dir, fd: int): Dir
    requires fd in s.agents
  {
    s.(players := s.players - {fd}, byName := s.byName - {s.agents[fd].username})
  }

  /** mgr.go's `Leave`. */
  function Leave(s: Dir, fd: int, roomID: int): (Dir, Result<(), LeaveError>)
    requires s.players <= s.agents.Keys
  {
    if roomID !in s.rooms then (s, Err(RoomNotFound))
    else
      var t := Vacate(s, fd, roomID);
      if fd !in t.players then (t, Err(PlayerNotFound)) else (Forget(t, fd), Ok(()))
  }

  datatype Event =
    | Connect(fd: int)
    | Login(fd: int, name: string)
    | JoinRoom(fd: int)
    | Destroy(fd: int)

  predicate Ready(s: Dir) {
    FrontExists(s) && s.players <= s.agents.Keys
  }

  /** An fd is handed out once, handlers know their agent, and an agent is destroyed once. */
  predicate Legal(s: Dir, e: Event) {
    match e
    case Connect(fd) => fd !in s.agents
    case Login(fd, _) => fd in s.agents
    case JoinRoom(fd) => fd in s.agents
    case Destroy(fd) => fd in s.agents && !s.agents[fd].destroyed
  }

  function SetUsername(s: Dir, fd: int, name: string): Dir
    requires fd in s.agents
  {
    s.(agents := s.agents[fd := s.agents[fd].(username := name)])
  }

  /** What a handler does to the directory; requests of destroyed agents are ignored. */
  function Step(s: Dir, e: Event): Dir
    requires Ready(s) && Legal(s, e)
  {
    match e
    case Connect(fd) => s.(agents := s.agents[fd := Agent(0, "", false)])
    case Login(fd, name) =>
      if s.agents[fd].destroyed then s else SetUsername(Join(s, fd, name).0, fd, name)
    case JoinRoom(fd) =>
      if s.agents[fd].destroyed then s else Join(s, fd, s.agents[fd].username).0
    case Destroy(fd) =>
      var s1 := Leave(s, fd, s.agents[fd].roomID).0;
      s1.(agents := s1.agents[fd := s1.agents[fd].(destroyed := true)])
  }

  /** The name that the step joins with, when it does join. */
  function Joined(s: Dir, e: Event): Option<string>
    requires Ready(s) && Legal(s, e)
  {
    match e
    case Connect(_) => None
    case Login(fd, name) => if !s.agents[fd].destroyed && Join(s, fd, name).1.Ok? then Some(name) else None
    case JoinRoom(fd) =>
      if !s.agents[fd].destroyed && Join(s, fd, s.agents[fd].username).1.Ok?
      then Some(s.agents[fd].username) else None
    case Destroy(_) => None
  }
}
