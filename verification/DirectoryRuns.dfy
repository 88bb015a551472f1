/** Theorems about whole runs of the directory. */
module DirectoryRuns {
  import opened Common
  import opened Directory
  import opened DirectoryInvariant

  ghost predicate LegalRun(s: Dir, es: seq<Event>)
    decreases |es|
  {
    es == [] || (Ready(s) && Legal(s, es[0]) && LegalRun(Step(s, es[0]), es[1..]))
  }

  ghost function Run(s: Dir, es: seq<Event>): Dir
    requires LegalRun(s, es)
    decreases |es|
  {
    if es == [] then s else Run(Step(s, es[0]), es[1..])
  }

  /** Nothing a client sends can break the directory. */
  lemma {:induction false} RunKeepsInv(s: Dir, es: seq<Event>)
    requires Inv(s) && LegalRun(s, es)
    ensures Inv(Run(s, es))
    decreases |es|
  {
    if es != [] {
      StepKeepsInv(s, es[0]);
      RunKeepsInv(Step(s, es[0]), es[1..]);
    }
  }

  /** From the empty server, whatever clients send. */
  lemma AnyRunOfAServer(es: seq<Event>)
    requires LegalRun(EMPTY, es)
    ensures Inv(Run(EMPTY, es))
  {
    InvEmpty();
    RunKeepsInv(EMPTY, es);
  }

  // ----- names

  /** The names that joined during the run, in order. */
  ghost function JoinedNames(s: Dir, es: seq<Event>): seq<string>
    requires LegalRun(s, es)
    decreases |es|
  {
    if es == [] then []
    else
      var rest := JoinedNames(Step(s, es[0]), es[1..]);
      match Joined(s, es[0])
      case None => rest
      case Some(name) => [name] + rest
  }

  lemma StepNames(s: Dir, e: Event)
    requires Ready(s) && Legal(s, e)
    ensures s.names <= Step(s, e).names
    ensures Joined(s, e).Some? ==> Joined(s, e).value !in s.names && Joined(s, e).value in Step(s, e).names
  {}

  /** `names` never shrinks, so no name joins twice in a run, however clients log in. */
  lemma {:induction false} NoNameJoinsTwice(s: Dir, es: seq<Event>)
    requires LegalRun(s, es)
    ensures forall i :: 0 <= i < |JoinedNames(s, es)| ==> JoinedNames(s, es)[i] !in s.names
    ensures forall i, j :: 0 <= i < j < |JoinedNames(s, es)| ==> JoinedNames(s, es)[i] != JoinedNames(s, es)[j]
    decreases |es|
  {
    if es != [] {
      StepNames(s, es[0]);
      NoNameJoinsTwice(Step(s, es[0]), es[1..]);
    }
  }

  ghost function RoomJoins(s: Dir, es: seq<Event>): nat
    requires LegalRun(s, es)
    decreases |es|
  {
    if es == [] then 0
    else (if es[0].JoinRoom? && Joined(s, es[0]).Some? then 1 else 0) + RoomJoins(Step(s, es[0]), es[1..])
  }

  /**
   REQ_JOIN_ROOM joins exactly when the agent has no name, the empty name was never used and there is
   space: any other username was used up when it was set.
   */
  lemma RoomJoinIffNameless(s: Dir, e: Event)
    requires Inv(s) && Legal(s, e) && e.JoinRoom?
    ensures Ready(s) && (Joined(s, e) == if JoinsNameless(s, e.fd) then Some("") else None)
  {
    InvReady(s);
    assert AgentOk(s, e.fd);
  }

  predicate JoinsNameless(s: Dir, fd: int)
    requires fd in s.agents
  {
    && !s.agents[fd].destroyed && s.agents[fd].username == "" && "" !in s.names
    && (s.valid != [] || |s.rooms| < MAX_ROOMS)
  }

  /** REQ_JOIN_ROOM joins only under the empty name, so it succeeds at most once in the server's life. */
  lemma {:induction false} RoomJoinsOnce(s: Dir, es: seq<Event>)
    requires Inv(s) && LegalRun(s, es)
    ensures RoomJoins(s, es) <= if "" in s.names then 0 else 1
    decreases |es|
  {
    if es != [] {
      var e := es[0];
      StepKeepsInv(s, e);
      StepNames(s, e);
      if e.JoinRoom? { RoomJoinIffNameless(s, e); }
      RoomJoinsOnce(Step(s, e), es[1..]);
    }
  }

  // ----- the exact directory

  ghost predicate NameOf(agents: map<int, Agent>, fd: int, name: string) {
    fd in agents && agents[fd].username == name
  }

  ghost predicate NamesExact(players: set<int>, agents: map<int, Agent>, byName: map<string, int>,
                             names: set<string>) {
    && byName.Keys <= names
    && (forall fd :: fd in players ==>
          fd in agents && agents[fd].username in byName && byName[agents[fd].username] == fd)
    && (forall name :: name in byName ==> byName[name] in players && NameOf(agents, byName[name], name))
  }

  ghost predicate RoomsExact(rooms: map<int, Room>, players: set<int>, agents: map<int, Agent>) {
    && (forall id :: id in rooms && !rooms[id].listed ==> |rooms[id].members| == MAX_MEMBERS)
    && (forall id, fd :: id in rooms && fd in rooms[id].members ==>
          fd in players && fd in agents && agents[fd].roomID == id)
  }

  /** A room is unlisted exactly when it is full, and every seat belongs to a player whose one room it is. */
  ghost predicate Seated(s: Dir) {
    Inv(s) && RoomsExact(s.rooms, s.players, s.agents)
  }

  /** The same, and names and players match up. */
  ghost predicate Exact(s: Dir) {
    && Inv(s)
    && NamesExact(s.players, s.agents, s.byName, s.names)
    && RoomsExact(s.rooms, s.players, s.agents)
  }

  /** A joined player does not log in under another name. */
  predicate Guard(s: Dir, e: Event)
    requires Ready(s) && Legal(s, e)
  {
    e.Login? && e.fd in s.players ==> e.name == s.agents[e.fd].username
  }

  /** The room that the next join enters. */
  function Target(s: Dir): int {
    if s.valid != [] then s.valid[0] else NextTid(s.base)
  }

  function TargetMembers(s: Dir): set<int> {
    if Target(s) in s.rooms then s.rooms[Target(s)].members else {}
  }

  lemma EnterEffect(s: Dir, fd: int, name: string, id: int)
    requires id in s.rooms && s.rooms[id].listed && |s.rooms[id].members| < MAX_MEMBERS
    requires fd in s.agents && fd !in s.rooms[id].members
    ensures var t := Enter(s, fd, name, id); var m := s.rooms[id].members + {fd};
      && |m| == |s.rooms[id].members| + 1
      && t.players == s.players + {fd} && t.byName == s.byName[name := fd] && t.names == s.names
      && t.agents == s.agents[fd := s.agents[fd].(roomID := id)]
      && t.rooms == s.rooms[id := Room(m, |m| < MAX_MEMBERS)]
  {
    MembersChange(s.rooms[id].members, fd);
  }

  predicate CanEnter(s: Dir, fd: int) {
    && (s.valid == [] ==> Target(s) !in s.rooms)
    && (s.valid != [] ==> Target(s) in s.rooms && s.rooms[Target(s)].listed
                          && |s.rooms[Target(s)].members| < MAX_MEMBERS && fd !in s.rooms[Target(s)].members)
  }

  lemma TargetOk(s: Dir, fd: int)
    requires Seated(s) && fd !in s.players
    ensures CanEnter(s, fd)
  {
    if s.valid != [] {
      var id := s.valid[0];
      assert id in s.valid;
      assert id in s.rooms && RoomOk(s.rooms[id]);
    }
  }

  /** Everything a successful join of a new player changes. */
  lemma JoinEffect(s: Dir, fd: int, name: string)
    requires fd in s.agents && CanEnter(s, fd)
    requires Join(s, fd, name).1.Ok?
    ensures var t := Join(s, fd, name).0; var id := Target(s); var m := TargetMembers(s) + {fd};
      && name !in s.names
      && t.players == s.players + {fd} && t.byName == s.byName[name := fd] && t.names == s.names + {name}
      && t.agents == s.agents[fd := s.agents[fd].(roomID := id)]
      && t.rooms == s.rooms[id := Room(m, |m| < MAX_MEMBERS)]
      && |m| == |TargetMembers(s)| + 1 <= MAX_MEMBERS
  {
    var s1 := s.(names := s.names + {name});
    if s.valid != [] {
      EnterEffect(s1, fd, name, s.valid[0]);
    } else {
      EnterEffect(AddRoom(s1), fd, name, Target(s));
    }
  }

  lemma NamesAdd(players: set<int>, agents: map<int, Agent>, byName: map<string, int>, names: set<string>,
                 fd: int, a: Agent)
    requires NamesExact(players, agents, byName, names) && fd !in players && a.username !in names
    ensures NamesExact(players + {fd}, agents[fd := a], byName[a.username := fd], names + {a.username})
  {}

  lemma NamesOutsider(players: set<int>, agents: map<int, Agent>, byName: map<string, int>, names: set<string>,
                      fd: int, a: Agent, more: set<string>)
    requires NamesExact(players, agents, byName, names) && fd !in players && names <= more
    ensures NamesExact(players, agents[fd := a], byName, more)
  {}

  lemma NamesRemove(players: set<int>, agents: map<int, Agent>, byName: map<string, int>, names: set<string>,
                    fd: int, a: Agent)
    requires NamesExact(players, agents, byName, names) && fd in players && fd in agents
    ensures NamesExact(players - {fd}, agents[fd := a], byName - {agents[fd].username}, names)
  {}

  lemma RoomsAdd(rooms: map<int, Room>, players: set<int>, agents: map<int, Agent>, fd: int, a: Agent, r: Room)
    requires RoomsExact(rooms, players, agents) && fd !in players
    requires !r.listed ==> |r.members| == MAX_MEMBERS
    requires r.members == (if a.roomID in rooms then rooms[a.roomID].members else {}) + {fd}
    ensures RoomsExact(rooms[a.roomID := r], players + {fd}, agents[fd := a])
  {}

  lemma RoomsOutsider(rooms: map<int, Room>, players: set<int>, agents: map<int, Agent>, fd: int, a: Agent)
    requires RoomsExact(rooms, players, agents) && fd !in players
    ensures RoomsExact(rooms, players, agents[fd := a])
  {}

  lemma NewcomerJoins(s: Dir, fd: int, name: string)
    requires NamesExact(s.players, s.agents, s.byName, s.names) && RoomsExact(s.rooms, s.players, s.agents)
    requires fd in s.agents && fd !in s.players && CanEnter(s, fd) && Join(s, fd, name).1.Ok?
    ensures var t := SetUsername(Join(s, fd, name).0, fd, name);
      && NamesExact(t.players, t.agents, t.byName, t.names)
      && RoomsExact(t.rooms, t.players, t.agents)
  {
    var u := Join(s, fd, name).0;
    JoinEffect(s, fd, name);
    var a := u.agents[fd].(username := name);
    NamesAdd(s.players, s.agents, s.byName, s.names, fd, a);
    RoomsAdd(s.rooms, s.players, s.agents, fd, a, u.rooms[Target(s)]);
    assert s.agents[fd := u.agents[fd]][fd := a] == s.agents[fd := a];
  }

  /** A player that is not joined stays outside or joins exactly; its username may change with it. */
  lemma NewcomerExact(s: Dir, fd: int, name: string)
    requires Exact(s) && fd in s.agents && fd !in s.players && Ready(s)
    ensures var t := SetUsername(Join(s, fd, name).0, fd, name);
      && NamesExact(t.players, t.agents, t.byName, t.names)
      && RoomsExact(t.rooms, t.players, t.agents)
  {
    if Join(s, fd, name).1.Ok? {
      TargetOk(s, fd);
      NewcomerJoins(s, fd, name);
    } else {
      var u := Join(s, fd, name).0;
      var a := u.agents[fd].(username := name);
      NamesOutsider(s.players, s.agents, s.byName, s.names, fd, a, u.names);
      RoomsOutsider(s.rooms, s.players, s.agents, fd, a);
    }
  }

  lemma JoinedIsDuplicate(s: Dir, fd: int)
    requires Exact(s) && fd in s.players
    ensures Ready(s) && fd in s.agents && Join(s, fd, s.agents[fd].username) == (s, Err(DuplicateName))
  {
    InvReady(s);
  }

  lemma LoginExact(s: Dir, fd: int, name: string)
    requires Exact(s) && Ready(s) && Legal(s, Login(fd, name)) && Guard(s, Login(fd, name))
    ensures Exact(Step(s, Login(fd, name)))
  {
    StepKeepsInv(s, Login(fd, name));
    if fd in s.players {
      JoinedIsDuplicate(s, fd);
      assert s.agents[fd := s.agents[fd].(username := name)] == s.agents;
    } else {
      NewcomerExact(s, fd, name);
    }
  }

  /** The maps of players and names after `Join`, whatever room it picked. */
  lemma JoinFrame(s: Dir, fd: int, name: string)
    requires Ready(s) && fd in s.agents
    ensures var (t, r) := Join(s, fd, name);
      && t.agents.Keys == s.agents.Keys && t.agents[fd].username == s.agents[fd].username
      && t.byName == (if r.Ok? then s.byName[name := fd] else s.byName)
      && s.players <= t.players
  {
    if name !in s.names {
      var s1 := s.(names := s.names + {name});
      if s1.valid != [] {
        EnterFrame(s1, fd, name, s1.valid[0]);
      } else if |s1.rooms| < MAX_ROOMS {
        EnterFrame(AddRoom(s1), fd, name, AddRoom(s1).base);
      }
    }
  }

  lemma EnterFrame(s: Dir, fd: int, name: string, id: int)
    requires id in s.rooms && fd in s.agents
    ensures var t := Enter(s, fd, name, id);
      && t.agents == s.agents[fd := s.agents[fd].(roomID := id)]
      && t.byName == s.byName[name := fd]
      && t.players == s.players + {fd}
  {}

  lemma RenameSame(s: Dir, fd: int)
    requires fd in s.agents
    ensures SetUsername(s, fd, s.agents[fd].username) == s
  {
    assert s.agents[fd := s.agents[fd]] == s.agents;
  }

  lemma JoinRoomExact(s: Dir, fd: int)
    requires Exact(s) && Ready(s) && Legal(s, JoinRoom(fd))
    ensures Exact(Step(s, JoinRoom(fd)))
  {
    StepKeepsInv(s, JoinRoom(fd));
    if fd in s.players {
      JoinedIsDuplicate(s, fd);
    } else {
      var name := s.agents[fd].username;
      NewcomerExact(s, fd, name);
      JoinFrame(s, fd, name);
      RenameSame(Join(s, fd, name).0, fd);
    }
  }

  lemma DestroyExact(s: Dir, fd: int)
    requires Exact(s) && Ready(s) && Legal(s, Destroy(fd))
    ensures Exact(Step(s, Destroy(fd)))
  {
    StepKeepsInv(s, Destroy(fd));
    assert AgentOk(s, fd);
    var a := s.agents[fd].(destroyed := true);
    if fd in s.players {
      NamesRemove(s.players, s.agents, s.byName, s.names, fd, a);
    } else {
      NamesOutsider(s.players, s.agents, s.byName, s.names, fd, a, s.names);
    }
  }

  lemma GuardedStepExact(s: Dir, e: Event)
    requires Exact(s) && Legal(s, e)
    ensures Ready(s) && (Guard(s, e) ==> Exact(Step(s, e)))
  {
    InvReady(s);
    StepKeepsInv(s, e);
    if Guard(s, e) {
      match e
      case Connect(fd) =>
        NamesOutsider(s.players, s.agents, s.byName, s.names, fd, Agent(0, "", false), s.names);
        RoomsOutsider(s.rooms, s.players, s.agents, fd, Agent(0, "", false));
      case Login(fd, name) => LoginExact(s, fd, name);
      case JoinRoom(fd) => JoinRoomExact(s, fd);
      case Destroy(fd) => DestroyExact(s, fd);
    }
  }

  lemma UnguardedLoginBreaks(s: Dir, fd: int, name: string)
    requires Exact(s) && fd in s.players && fd in s.agents && name != s.agents[fd].username
    ensures Ready(s) && !Exact(Step(s, Login(fd, name)))
  {
    InvReady(s);
    var t := Step(s, Login(fd, name));
    assert AgentOk(s, fd);
    JoinFrame(s, fd, name);
    var old' := s.agents[fd].username;
    assert t.agents[fd].username == name && fd in t.players;
    assert s.byName[old'] == fd;
    assert t.byName[old'] == fd && !NameOf(t.agents, fd, old');
    assert name in s.byName ==> NameOf(s.agents, s.byName[name], name);
  }

  /** The guard is exact: a step keeps the directory exact if and only if it is guarded. */
  lemma StepExactIffGuarded(s: Dir, e: Event)
    requires Exact(s) && Legal(s, e)
    ensures Ready(s) && (Exact(Step(s, e)) <==> Guard(s, e))
  {
    GuardedStepExact(s, e);
    if Guard(s, e) {
      assert Exact(Step(s, e));
    } else {
      var Login(fd, name) := e;
      UnguardedLoginBreaks(s, fd, name);
      assert !Exact(Step(s, e));
    }
  }

  // ----- seats alone

  /** A player joins again only into the room it is in, and only if that room does not count itself full by it. */
  predicate KeepsSeat(s: Dir, e: Event)
    requires Ready(s) && Legal(s, e)
  {
    Joined(s, e).Some? && e.fd in s.players && e.fd in s.agents ==>
      Target(s) == s.agents[e.fd].roomID && |TargetMembers(s)| + 1 < MAX_MEMBERS
  }

  lemma SecondJoinEffect(s: Dir, fd: int, name: string)
    requires Inv(s) && Ready(s) && fd in s.players && fd in s.agents && Join(s, fd, name).1.Ok?
    ensures var t := Join(s, fd, name).0; var m := TargetMembers(s);
      && t.players == s.players && t.agents == s.agents[fd := s.agents[fd].(roomID := Target(s))]
      && t.rooms == s.rooms[Target(s) := Room(m + {fd}, |m| + 1 < MAX_MEMBERS)]
  {
    if s.valid != [] { assert s.valid[0] in s.valid && RoomOk(s.rooms[s.valid[0]]); }
  }

  lemma SecondJoinSeats(s: Dir, fd: int, name: string)
    requires Seated(s) && Ready(s) && fd in s.players && fd in s.agents && Join(s, fd, name).1.Ok?
    ensures var t := Join(s, fd, name).0;
      RoomsExact(t.rooms, t.players, t.agents) <==>
      Target(s) == s.agents[fd].roomID && |TargetMembers(s)| + 1 < MAX_MEMBERS
  {
    var t, id, m := Join(s, fd, name).0, s.agents[fd].roomID, TargetMembers(s);
    assert AgentOk(s, fd);
    SecondJoinEffect(s, fd, name);
    if Target(s) != id {
      assert fd in t.rooms[id].members;
    } else {
      assert m + {fd} == m;
      assert s.valid != [] ==> s.valid[0] in s.valid;
      if |m| + 1 < MAX_MEMBERS {
        assert t.rooms == s.rooms && t.agents == s.agents;
      } else {
        assert RoomOk(s.rooms[id]) && !t.rooms[id].listed && |t.rooms[id].members| < MAX_MEMBERS;
      }
    }
  }

  lemma JoinSeats(s: Dir, fd: int, name: string)
    requires Seated(s) && Ready(s) && fd in s.agents && !s.agents[fd].destroyed
    ensures var (t, r) := Join(s, fd, name);
      RoomsExact(t.rooms, t.players, t.agents) <==>
      (r.Ok? && fd in s.players ==> Target(s) == s.agents[fd].roomID && |TargetMembers(s)| + 1 < MAX_MEMBERS)
  {
    var (t, r) := Join(s, fd, name);
    if r.Ok? && fd in s.players {
      SecondJoinSeats(s, fd, name);
    } else if r.Ok? {
      TargetOk(s, fd);
      JoinEffect(s, fd, name);
      RoomsAdd(s.rooms, s.players, s.agents, fd, t.agents[fd], t.rooms[Target(s)]);
    }
  }

  lemma DestroySeats(s: Dir, fd: int)
    requires Seated(s) && Ready(s) && Legal(s, Destroy(fd))
    ensures var t := Step(s, Destroy(fd)); RoomsExact(t.rooms, t.players, t.agents)
  {
    StepKeepsInv(s, Destroy(fd));
    assert AgentOk(s, fd);
    if fd !in s.players {
      RoomsOutsider(s.rooms, s.players, s.agents, fd, s.agents[fd].(destroyed := true));
    }
  }

  /** The exact guard for seats alone: names may be in any disorder. */
  lemma StepSeatedIffKeepsSeat(s: Dir, e: Event)
    requires Seated(s) && Legal(s, e)
    ensures Ready(s) && (Seated(Step(s, e)) <==> KeepsSeat(s, e))
  {
    InvReady(s);
    StepKeepsInv(s, e);
    match e
    case Connect(fd) => RoomsOutsider(s.rooms, s.players, s.agents, fd, Agent(0, "", false));
    case Login(fd, name) =>
      if !s.agents[fd].destroyed {
        JoinSeats(s, fd, name);
        RenameSeats(Join(s, fd, name).0, fd, name);
      }
    case JoinRoom(fd) =>
      if !s.agents[fd].destroyed { JoinSeats(s, fd, s.agents[fd].username); }
    case Destroy(fd) => DestroySeats(s, fd);
  }

  lemma RenameSeats(s: Dir, fd: int, name: string)
    requires fd in s.agents
    ensures var t := SetUsername(s, fd, name);
      RoomsExact(t.rooms, t.players, t.agents) <==> RoomsExact(s.rooms, s.players, s.agents)
  {
    var t := SetUsername(s, fd, name);
    assert forall g :: g in t.agents ==> g in s.agents && t.agents[g].roomID == s.agents[g].roomID;
    assert forall g :: g in s.agents ==> g in t.agents;
  }

  ghost predicate GuardedRun(s: Dir, es: seq<Event>)
    requires LegalRun(s, es)
    decreases |es|
  {
    es == [] || (Guard(s, es[0]) && GuardedRun(Step(s, es[0]), es[1..]))
  }

  lemma {:induction false} GuardedRunExact(s: Dir, es: seq<Event>)
    requires Exact(s) && LegalRun(s, es) && GuardedRun(s, es)
    ensures Exact(Run(s, es))
    decreases |es|
  {
    if es != [] {
      GuardedStepExact(s, es[0]);
      GuardedRunExact(Step(s, es[0]), es[1..]);
    }
  }

  // ----- head counts

  ghost function Everyone(rooms: map<int, Room>, n: nat): set<int>
    requires forall id :: 1 <= id <= n ==> id in rooms
  {
    if n == 0 then {} else Everyone(rooms, n - 1) + rooms[n].members
  }

  ghost function HeadCount(rooms: map<int, Room>, n: nat): nat
    requires forall id :: 1 <= id <= n ==> id in rooms
  {
    if n == 0 then 0 else HeadCount(rooms, n - 1) + |rooms[n].members|
  }

  lemma {:induction false} EveryoneMembers(rooms: map<int, Room>, n: nat)
    requires forall id :: 1 <= id <= n ==> id in rooms
    ensures forall fd :: fd in Everyone(rooms, n) <==> exists id :: 1 <= id <= n && fd in rooms[id].members
  {
    if n > 0 {
      EveryoneMembers(rooms, n - 1);
      assert forall fd :: fd in rooms[n].members ==> fd in Everyone(rooms, n);
    }
  }

  lemma {:induction false} HeadCountIsSize(rooms: map<int, Room>, n: nat, players: set<int>, agents: map<int, Agent>)
    requires (forall id :: 1 <= id <= n ==> id in rooms) && RoomsExact(rooms, players, agents)
    ensures HeadCount(rooms, n) == |Everyone(rooms, n)|
  {
    if n > 0 {
      HeadCountIsSize(rooms, n - 1, players, agents);
      EveryoneMembers(rooms, n - 1);
      forall fd | fd in Everyone(rooms, n - 1) ensures fd !in rooms[n].members {
        var id :| 1 <= id <= n - 1 && fd in rooms[id].members;
        assert fd in agents && agents[fd].roomID == id;
      }
    }
  }

  /** Member sets are disjoint and together are exactly the joined players. */
  lemma MembersPartitionPlayers(s: Dir)
    requires Seated(s)
    ensures Everyone(s.rooms, s.base) == s.players
    ensures HeadCount(s.rooms, s.base) == |s.players|
  {
    EveryoneMembers(s.rooms, s.base);
    HeadCountIsSize(s.rooms, s.base, s.players, s.agents);
    forall fd ensures fd in Everyone(s.rooms, s.base) <==> fd in s.players {
      if fd in s.players {
        assert AgentOk(s, fd);
      }
      if fd in Everyone(s.rooms, s.base) {
        var id :| 1 <= id <= s.base && fd in s.rooms[id].members;
        assert id in s.rooms;
      }
    }
  }

  lemma {:induction false} FullRooms(rooms: map<int, Room>, n: nat)
    requires forall id :: 1 <= id <= n ==> id in rooms && |rooms[id].members| <= MAX_MEMBERS
    ensures HeadCount(rooms, n) <= MAX_MEMBERS * n
    ensures HeadCount(rooms, n) == MAX_MEMBERS * n <==>
              forall id :: 1 <= id <= n ==> |rooms[id].members| == MAX_MEMBERS
  {
    if n > 0 { FullRooms(rooms, n - 1); }
  }

  lemma ListEmptyIffFull(s: Dir)
    requires Seated(s)
    ensures |s.players| <= MAX_MEMBERS * |s.rooms|
    ensures s.valid == [] <==> |s.players| == MAX_MEMBERS * |s.rooms|
  {
    MembersPartitionPlayers(s);
    forall id | 1 <= id <= s.base ensures id in s.rooms && |s.rooms[id].members| <= MAX_MEMBERS {
      assert RoomOk(s.rooms[id]);
    }
    FullRooms(s.rooms, s.base);
    if s.valid == [] {
      forall id | 1 <= id <= s.base ensures |s.rooms[id].members| == MAX_MEMBERS {
        assert id !in s.valid;
      }
    } else {
      var id := s.valid[0];
      assert id in s.valid && RoomOk(s.rooms[id]);
    }
  }

  /** With a fresh name, "no room valid" is answered exactly when 10000 players are joined. */
  lemma NoRoomIffTenThousand(s: Dir, fd: int, name: string)
    requires Seated(s) && fd in s.agents && name !in s.names
    ensures Ready(s) && (Join(s, fd, name).1 == Err(NoRoomValid) <==> |s.players| == 10000)
  {
    InvReady(s);
    ListEmptyIffFull(s);
  }

  /** The largest number of players joined at once during the run. */
  ghost function Peak(s: Dir, es: seq<Event>): nat
    requires LegalRun(s, es)
    decreases |es|
  {
    if es == [] then |s.players|
    else
      var rest := Peak(Step(s, es[0]), es[1..]);
      if rest > |s.players| then rest else |s.players|
  }

  lemma NewcomerRooms(s: Dir, fd: int, name: string)
    requires Seated(s) && Ready(s) && fd in s.agents && fd !in s.players
    ensures var t := Join(s, fd, name).0;
      |t.rooms| == |s.rooms| || (|t.rooms| == |s.rooms| + 1 && |t.players| == MAX_MEMBERS * |s.rooms| + 1)
  {
    if Join(s, fd, name).1.Ok? {
      ListEmptyIffFull(s);
      TargetOk(s, fd);
      JoinEffect(s, fd, name);
    }
  }

  lemma SecondJoinRooms(s: Dir, fd: int, name: string)
    requires Inv(s) && Ready(s) && fd in s.players && fd in s.agents && Join(s, fd, name).1.Ok?
    requires Target(s) == s.agents[fd].roomID
    ensures |Join(s, fd, name).0.rooms| == |s.rooms|
  {
    assert AgentOk(s, fd);
    SecondJoinEffect(s, fd, name);
    assert Join(s, fd, name).0.rooms.Keys == s.rooms.Keys;
    assert |s.rooms| == |s.rooms.Keys| && |Join(s, fd, name).0.rooms| == |Join(s, fd, name).0.rooms.Keys|;
  }

  lemma JoinRooms(s: Dir, fd: int, name: string)
    requires Seated(s) && Ready(s) && fd in s.agents
    requires Join(s, fd, name).1.Ok? && fd in s.players ==> Target(s) == s.agents[fd].roomID
    ensures var t := Join(s, fd, name).0;
      |t.rooms| == |s.rooms| || (|t.rooms| == |s.rooms| + 1 && |t.players| == MAX_MEMBERS * |s.rooms| + 1)
  {
    if fd !in s.players {
      NewcomerRooms(s, fd, name);
    } else if Join(s, fd, name).1.Ok? {
      SecondJoinRooms(s, fd, name);
    }
  }

  lemma StepRooms(s: Dir, e: Event)
    requires Seated(s) && Legal(s, e) && Ready(s) && KeepsSeat(s, e)
    ensures var t := Step(s, e);
      |t.rooms| == |s.rooms| || (|t.rooms| == |s.rooms| + 1 && |t.players| == MAX_MEMBERS * |s.rooms| + 1)
  {
    match e
    case Connect(_) =>
    case Login(fd, name) => if !s.agents[fd].destroyed { JoinRooms(s, fd, name); }
    case JoinRoom(fd) => if !s.agents[fd].destroyed { JoinRooms(s, fd, s.agents[fd].username); }
    case Destroy(fd) =>
      StepKeepsInv(s, e);
      assert Step(s, e).base == s.base;
  }

  /** No step of the run costs a seat. */
  ghost predicate SeatsKept(s: Dir, es: seq<Event>)
    requires LegalRun(s, es)
    decreases |es|
  {
    es == [] || (KeepsSeat(s, es[0]) && SeatsKept(Step(s, es[0]), es[1..]))
  }

  lemma {:induction false} SeatsKeptRun(s: Dir, es: seq<Event>)
    requires Seated(s) && LegalRun(s, es) && SeatsKept(s, es)
    ensures Seated(Run(s, es))
    decreases |es|
  {
    if es != [] {
      StepSeatedIffKeepsSeat(s, es[0]);
      SeatsKeptRun(Step(s, es[0]), es[1..]);
    }
  }

  /** If players join only while not joined, no seat is lost. */
  lemma {:induction false} GuardedKeepsSeats(s: Dir, es: seq<Event>)
    requires Exact(s) && LegalRun(s, es) && GuardedRun(s, es)
    ensures SeatsKept(s, es)
    decreases |es|
  {
    if es != [] {
      GuardedStepExact(s, es[0]);
      StepSeatedIffKeepsSeat(s, es[0]);
      GuardedKeepsSeats(Step(s, es[0]), es[1..]);
    }
  }

  /** A room is opened only when all others are full: the rooms never outnumber the peak load by more than one. */
  lemma {:induction false} RoomsBoundedByPeak(s: Dir, es: seq<Event>)
    requires Seated(s) && LegalRun(s, es) && SeatsKept(s, es)
    ensures |Run(s, es).rooms| == |s.rooms| || MAX_MEMBERS * (|Run(s, es).rooms| - 1) < Peak(s, es)
    decreases |es|
  {
    if es != [] {
      var t := Step(s, es[0]);
      StepSeatedIffKeepsSeat(s, es[0]);
      StepRooms(s, es[0]);
      RoomsBoundedByPeak(t, es[1..]);
      assert Peak(t, es[1..]) >= |t.players| by { PeakAtLeast(t, es[1..]); }
    }
  }

  lemma PeakAtLeast(s: Dir, es: seq<Event>)
    requires LegalRun(s, es)
    ensures Peak(s, es) >= |s.players|
  {}

  /** From an empty server: as soon as there is a room, 100 * (rooms - 1) players were once joined together. */
  lemma RoomsOfAServer(es: seq<Event>)
    requires LegalRun(EMPTY, es) && GuardedRun(EMPTY, es)
    ensures Exact(Run(EMPTY, es))
    ensures Run(EMPTY, es).rooms != map[] ==> MAX_MEMBERS * (|Run(EMPTY, es).rooms| - 1) < Peak(EMPTY, es)
  {
    assert Exact(EMPTY);
    GuardedRunExact(EMPTY, es);
    GuardedKeepsSeats(EMPTY, es);
    RoomsBoundedByPeak(EMPTY, es);
  }

  // ----- what goes wrong without the guard

  const CONNECTED := Dir(0, map[], [], {}, map[], {}, map[1 := Agent(0, "", false)])
  const LOGGED_IN := Dir(1, map[1 := Room({1}, true)], [1], {1}, map["a" := 1], {"a"}, map[1 := Agent(1, "a", false)])
  const TWICE := Dir(1, map[1 := Room({1}, true)], [1], {1}, map["a" := 1, "b" := 1], {"a", "b"},
                     map[1 := Agent(1, "b", false)])
  const GONE := Dir(1, map[1 := Room({}, true)], [1], {}, map["a" := 1], {"a", "b"}, map[1 := Agent(1, "b", true)])

  lemma SecondLoginSteps()
    ensures Step(EMPTY, Connect(1)) == CONNECTED
    ensures Step(CONNECTED, Login(1, "a")) == LOGGED_IN
  {}

  lemma SecondLoginAgain()
    ensures Step(LOGGED_IN, Login(1, "b")) == TWICE
  {
    assert {1} + {1} == {1};
  }

  lemma SecondLoginDestroyed()
    ensures Step(TWICE, Destroy(1)) == GONE
  {
    assert {1} - {1} == {};
    assert map["a" := 1, "b" := 1] - {"b"} == map["a" := 1];
  }

  lemma RunCons(s: Dir, e: Event, es: seq<Event>)
    requires Ready(s) && Legal(s, e) && LegalRun(Step(s, e), es)
    ensures LegalRun(s, [e] + es) && Run(s, [e] + es) == Run(Step(s, e), es)
  {
    assert ([e] + es)[1..] == es;
  }

  lemma GoneIsInexact()
    ensures GONE.players == {} && "a" in GONE.byName && !Exact(GONE)
  {
    assert GONE.byName["a"] == 1;
  }

  /** Without the guard the name of a player that logged in twice outlives the player. */
  lemma SecondLoginLeavesName()
    ensures exists es :: LegalRun(EMPTY, es) && Run(EMPTY, es) == GONE
    ensures GONE.players == {} && "a" in GONE.byName && !Exact(GONE)
  {
    GoneIsInexact();
    SecondLoginSteps();
    SecondLoginAgain();
    SecondLoginDestroyed();
    var es := [];
    RunCons(TWICE, Destroy(1), es);
    es := [Destroy(1)] + es;
    RunCons(LOGGED_IN, Login(1, "b"), es);
    es := [Login(1, "b")] + es;
    RunCons(CONNECTED, Login(1, "a"), es);
    es := [Login(1, "a")] + es;
    RunCons(EMPTY, Connect(1), es);
    es := [Connect(1)] + es;
    assert LegalRun(EMPTY, es) && Run(EMPTY, es) == GONE;
  }
}
