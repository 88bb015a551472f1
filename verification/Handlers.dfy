/** The request handlers and the life of a connection, on top of the room manager. */
module Handlers {
  import opened Common
  import D = Directory
  import I = DirectoryInvariant
  import L = DirectoryLaws
  import opened RoomManager

  datatype Request = ReqLogin(username: string) | ReqJoinRoom

  function EventOf(fd: int, req: Request): D.Event {
    match req
    case ReqLogin(username) => D.Login(fd, username)
    case ReqJoinRoom => D.JoinRoom(fd)
  }

  /** What the handlers rely on; every directory with the invariant has it. */
  ghost predicate Steady(s: D.Dir) {
    && D.Ready(s) && JoinReady(s)
    && forall id :: id in s.rooms && !s.rooms[id].listed ==> id !in s.valid
  }

  lemma InvSteady(s: D.Dir)
    requires I.Inv(s)
    ensures Steady(s)
  {
    InvJoinReady(s);
  }

  ghost predicate Knows(m: Manager, p: Agent)
    reads m
  {
    p.fd in m.agents && m.agents[p.fd] == p
  }

  method SetUsername(m: Manager, p: Agent, name: string, ghost s: D.Dir) returns (ghost t: D.Dir)
    requires m.Linked(s) && Knows(m, p)
    modifies p`username
    ensures t == D.SetUsername(s, p.fd, name) && m.Linked(t)
  {
    t := D.SetUsername(s, p.fd, name);
    p.username := name;
  }

  /** cb.go's `reqLogin`: the username changes even when the join fails. */
  method Login(m: Manager, p: Agent, name: string, ghost s: D.Dir) returns (r: Result<int, D.JoinError>, ghost t: D.Dir)
    requires m.Linked(s) && Steady(s) && Knows(m, p) && !p.destroyed
    modifies m, m.validRooms, m.roomObjects, p
    ensures t == D.Step(s, D.Login(p.fd, name)) && r == D.Join(s, p.fd, name).1
    ensures m.Linked(t) && p.username == name && (r.Ok? ==> p.roomID == r.value)
    ensures I.Inv(s) ==> L.JoinAnswers(s, p.fd, name, D.Join(s, p.fd, name).0, r)
  {
    if I.Inv(s) { L.JoinLaw(s, p.fd, name); }
    r, t := m.Join(p, name, s);
    t := SetUsername(m, p, name, t);
  }

  /** cb.go's `reqJoinRoom`. */
  method JoinRoom(m: Manager, p: Agent, ghost s: D.Dir) returns (r: Result<int, D.JoinError>, ghost t: D.Dir)
    requires m.Linked(s) && Steady(s) && Knows(m, p) && !p.destroyed
    modifies m, m.validRooms, m.roomObjects, p
    ensures t == D.Step(s, D.JoinRoom(p.fd)) && r == D.Join(s, p.fd, old(p.username)).1
    ensures m.Linked(t) && p.username == old(p.username) && (r.Ok? ==> p.roomID == r.value)
    ensures I.Inv(s) ==> L.JoinAnswers(s, p.fd, p.username, t, r)
  {
    if I.Inv(s) { L.JoinLaw(s, p.fd, p.username); }
    r, t := m.Join(p, p.username, s);
  }

  /** handler.go's `handleCS`: requests of a destroyed agent are dropped. */
  method HandleCS(m: Manager, p: Agent, req: Request, ghost s: D.Dir)
    returns (r: Option<Result<int, D.JoinError>>, ghost t: D.Dir)
    requires m.Linked(s) && Steady(s) && Knows(m, p)
    modifies m, m.validRooms, m.roomObjects, p
    ensures D.Legal(s, EventOf(p.fd, req)) && t == D.Step(s, EventOf(p.fd, req)) && m.Linked(t)
    ensures r.None? <==> old(p.destroyed)
    ensures r.Some? && r.value.Ok? ==> p.roomID == r.value.value
    ensures r.Some? && I.Inv(s) ==>
      var name := if req.ReqLogin? then req.username else old(p.username);
      p.username == name && L.JoinAnswers(s, p.fd, name, D.Join(s, p.fd, name).0, r.value)
  {
    if p.destroyed {
      return None, s;
    }
    var rsp;
    match req {
      case ReqLogin(username) => rsp, t := Login(m, p, username, s);
      case ReqJoinRoom => rsp, t := JoinRoom(m, p, s);
    }
    return Some(rsp), t;
  }

  /** player.go's `NewPlayer`, as far as the directory sees it. */
  method NewPlayer(m: Manager, fd: int, ghost s: D.Dir) returns (p: Agent, ghost t: D.Dir)
    requires m.Linked(s) && Steady(s) && fd !in m.agents
    modifies m`agents, m`agentObjects
    ensures D.Legal(s, D.Connect(fd)) && t == D.Step(s, D.Connect(fd)) && m.Linked(t)
    ensures Knows(m, p) && fresh(p) && p.fd == fd
  {
    p := new Agent(fd);
    m.agents := m.agents[fd := p];
    m.agentObjects := m.agentObjects + {p};
    t := D.Step(s, D.Connect(fd));
  }

  method MarkDestroyed(m: Manager, p: Agent, ghost s: D.Dir) returns (ghost t: D.Dir)
    requires m.Linked(s) && Knows(m, p)
    modifies p`destroyed
    ensures t == s.(agents := s.agents[p.fd := s.agents[p.fd].(destroyed := true)]) && m.Linked(t) && p.destroyed
  {
    t := s.(agents := s.agents[p.fd := s.agents[p.fd].(destroyed := true)]);
    p.destroyed := true;
  }

  /** player.go's `Destroy`, which runs once for each agent. */
  method Destroy(m: Manager, p: Agent, ghost s: D.Dir) returns (ghost t: D.Dir)
    requires m.Linked(s) && Steady(s) && Knows(m, p) && !p.destroyed
    modifies m, m.validRooms, m.roomObjects, p
    ensures t == D.Step(s, D.Destroy(p.fd)) && m.Linked(t) && p.destroyed
  {
    var r;
    r, t := m.Leave(p.fd, p.roomID, s);
    t := MarkDestroyed(m, p, t);
  }
}
