/**
 What a second login can cost.  A joined player whose second login succeeds in another room sits in two rooms
 from then on, and `Destroy` frees the second seat only: the first one is lost for as long as the server runs.
 */
module DeadSeats {
  import opened Common
  import opened Directory
  import opened DirectoryInvariant
  import opened DirectoryRuns

  /** A destroyed agent is still a member of the room. */
  ghost predicate DeadSeat(s: Dir, fd: int, id: int) {
    && fd in s.agents && s.agents[fd].destroyed && id in s.rooms && fd in s.rooms[id].members
  }

  /** A login of a joined player costs its seat if and only if it succeeds and the next room is another one. */
  lemma SeatLostIff(s: Dir, fd: int, name: string)
    requires Inv(s) && fd in s.players
    ensures Ready(s) && Legal(s, Login(fd, name)) && fd in s.agents
    ensures var t := Step(s, Login(fd, name)); var id := s.agents[fd].roomID;
      && Inv(t) && Ready(t) && Legal(t, Destroy(fd)) && Inv(Step(t, Destroy(fd)))
      && (DeadSeat(Step(t, Destroy(fd)), fd, id) <==> Join(s, fd, name).1.Ok? && Target(s) != id)
  {
    InvReady(s);
    assert AgentOk(s, fd);
    StepKeepsInv(s, Login(fd, name));
    var t := Step(s, Login(fd, name));
    assert AgentOk(t, fd);
    StepKeepsInv(t, Destroy(fd));
    SeatAfterLogin(s, fd, name);
  }

  /** Where a joined player sits after a second login. */
  lemma SeatAfterLogin(s: Dir, fd: int, name: string)
    requires Inv(s) && Ready(s) && fd in s.players && fd in s.agents && !s.agents[fd].destroyed
    ensures var t := Step(s, Login(fd, name)); var id := s.agents[fd].roomID;
      && fd in t.players && fd in t.agents && id in t.rooms && fd in t.rooms[id].members
      && t.agents[fd].roomID == if Join(s, fd, name).1.Ok? then Target(s) else id
  {
    assert AgentOk(s, fd);
    if Join(s, fd, name).1.Ok? { SecondJoinEffect(s, fd, name); }
  }

  lemma JoinKeepsSeat(s: Dir, g: int, name: string, fd: int, id: int)
    requires Inv(s) && Ready(s) && g in s.agents && DeadSeat(s, fd, id)
    ensures DeadSeat(Join(s, g, name).0, fd, id) && Join(s, g, name).0.agents.Keys == s.agents.Keys
  {
    var s1 := s.(names := s.names + {name});
    if name !in s.names {
      if s.valid != [] {
        EnterKeepsSeat(s1, g, name, s.valid[0], fd, id);
      } else if |s.rooms| < MAX_ROOMS {
        EnterKeepsSeat(AddRoom(s1), g, name, AddRoom(s1).base, fd, id);
      }
    }
  }

  lemma EnterKeepsSeat(s: Dir, g: int, name: string, into: int, fd: int, id: int)
    requires g in s.agents && into in s.rooms && DeadSeat(s, fd, id)
    ensures DeadSeat(Enter(s, g, name, into), fd, id) && Enter(s, g, name, into).agents.Keys == s.agents.Keys
  {}

  lemma LeaveKeepsSeat(s: Dir, g: int, roomID: int, fd: int, id: int)
    requires Ready(s) && DeadSeat(s, fd, id) && g != fd
    ensures DeadSeat(Leave(s, g, roomID).0, fd, id) && Leave(s, g, roomID).0.agents == s.agents
  {}

  lemma StepKeepsDeadSeat(s: Dir, e: Event, fd: int, id: int)
    requires Inv(s) && Legal(s, e) && DeadSeat(s, fd, id)
    ensures Ready(s) && DeadSeat(Step(s, e), fd, id)
  {
    InvReady(s);
    match e
    case Connect(_) =>
    case Login(g, name) => JoinKeepsSeat(s, g, name, fd, id);
    case JoinRoom(g) => JoinKeepsSeat(s, g, s.agents[g].username, fd, id);
    case Destroy(g) => LeaveKeepsSeat(s, g, s.agents[g].roomID, fd, id);
  }

  /** Nothing that happens later frees the seat. */
  lemma {:induction false} DeadSeatStays(s: Dir, es: seq<Event>, fd: int, id: int)
    requires Inv(s) && LegalRun(s, es) && DeadSeat(s, fd, id)
    ensures DeadSeat(Run(s, es), fd, id)
    decreases |es|
  {
    if es != [] {
      StepKeepsInv(s, es[0]);
      StepKeepsDeadSeat(s, es[0], fd, id);
      DeadSeatStays(Step(s, es[0]), es[1..], fd, id);
    }
  }

  // ----- "no room valid" with empty seats

  lemma {:induction false} EveryoneFits(rooms: map<int, Room>, n: nat)
    requires forall id :: 1 <= id <= n ==> id in rooms
    ensures |Everyone(rooms, n)| <= HeadCount(rooms, n)
  {
    if n > 0 {
      EveryoneFits(rooms, n - 1);
      UnionSize(Everyone(rooms, n - 1), rooms[n].members);
    }
  }

  lemma UnionSize(a: set<int>, b: set<int>)
    ensures |a + b| <= |a| + |b|
  {
    assert a + b == a + (b - a);
    assert |a + (b - a)| == |a| + |b - a|;
    SubsetSize(b - a, b);
  }

  lemma SubsetSize(a: set<int>, b: set<int>)
    requires a <= b
    ensures |a| <= |b|
  {
    assert b == a + (b - a);
  }

  /** With a dead seat fewer than 10000 players can be joined, whatever the server answers. */
  lemma DeadSeatTakesRoom(s: Dir, fd: int, id: int)
    requires Inv(s) && DeadSeat(s, fd, id)
    ensures |s.players| < 10000
  {
    var all := Everyone(s.rooms, s.base);
    EveryoneMembers(s.rooms, s.base);
    forall g | g in s.players ensures g in all - {fd} { assert AgentOk(s, g); }
    assert AgentOk(s, fd) && fd in all;
    SubsetSize(s.players, all - {fd});
    EveryoneFits(s.rooms, s.base);
    forall i | 1 <= i <= s.base ensures i in s.rooms && |s.rooms[i].members| <= MAX_MEMBERS {
      assert RoomOk(s.rooms[i]);
    }
    FullRooms(s.rooms, s.base);
  }

  lemma UnionOverlaps(a: set<int>, b: set<int>, x: int)
    requires x in a && x in b
    ensures |a + b| < |a| + |b|
  {
    assert a + b == a + (b - {x});
    UnionSize(a, b - {x});
  }

  /** Rooms without a common member: the head count is the number of heads. */
  lemma {:induction false} HeadsApart(rooms: map<int, Room>, n: nat, i: int, j: int, x: int)
    requires forall id :: 1 <= id <= n ==> id in rooms
    requires HeadCount(rooms, n) == |Everyone(rooms, n)| && 1 <= i < j <= n
    ensures !(x in rooms[i].members && x in rooms[j].members)
  {
    EveryoneFits(rooms, n - 1);
    UnionSize(Everyone(rooms, n - 1), rooms[n].members);
    if j < n {
      HeadsApart(rooms, n - 1, i, j, x);
    } else {
      EveryoneMembers(rooms, n - 1);
      if x in rooms[i].members && x in rooms[n].members {
        UnionOverlaps(Everyone(rooms, n - 1), rooms[n].members, x);
      }
    }
  }

  lemma PlayersAmongHeads(s: Dir)
    requires Inv(s)
    ensures s.players <= Everyone(s.rooms, s.base)
    ensures |s.players| <= |Everyone(s.rooms, s.base)| <= HeadCount(s.rooms, s.base) <= MAX_MEMBERS * s.base
  {
    var all := Everyone(s.rooms, s.base);
    EveryoneMembers(s.rooms, s.base);
    forall g | g in s.players ensures g in all { assert AgentOk(s, g); }
    SubsetSize(s.players, all);
    EveryoneFits(s.rooms, s.base);
    forall i | 1 <= i <= s.base ensures i in s.rooms && |s.rooms[i].members| <= MAX_MEMBERS {
      assert RoomOk(s.rooms[i]);
    }
    FullRooms(s.rooms, s.base);
  }

  lemma SameSet(a: set<int>, b: set<int>)
    requires a <= b && |a| == |b|
    ensures forall x :: x in b ==> x in a
  {
    forall x | x in b ensures x in a {
      if x !in a {
        SubsetSize(a, b - {x});
      }
    }
  }

  /** With as many players as seats, every seat belongs to the player whose room it is. */
  lemma FullHouseIsSeated(s: Dir)
    requires Inv(s) && |s.players| == MAX_MEMBERS * s.base
    ensures RoomsExact(s.rooms, s.players, s.agents)
  {
    PlayersAmongHeads(s);
    EveryoneMembers(s.rooms, s.base);
    SameSet(s.players, Everyone(s.rooms, s.base));
    forall i | 1 <= i <= s.base ensures i in s.rooms && |s.rooms[i].members| <= MAX_MEMBERS {
      assert RoomOk(s.rooms[i]);
    }
    FullRooms(s.rooms, s.base);
    forall id, fd | id in s.rooms && fd in s.rooms[id].members
      ensures fd in s.players && fd in s.agents && s.agents[fd].roomID == id
    {
      assert fd in Everyone(s.rooms, s.base);
      assert AgentOk(s, fd);
      var home := s.agents[fd].roomID;
      if home < id { HeadsApart(s.rooms, s.base, home, id, fd); }
      if id < home { HeadsApart(s.rooms, s.base, id, home, fd); }
    }
  }

  /**
   On every directory that clients can bring about: when "no room valid" is answered, 10000 players are
   joined if and only if every seat belongs to a player whose one room it is.
   */
  lemma NoRoomMeansTenThousandIffSeated(s: Dir, fd: int, name: string)
    requires Inv(s) && fd in s.agents
    ensures Ready(s)
    ensures Join(s, fd, name).1 == Err(NoRoomValid) ==> (|s.players| == 10000 <==> Seated(s))
  {
    InvReady(s);
    if Join(s, fd, name).1 == Err(NoRoomValid) {
      if |s.players| == 10000 { FullHouseIsSeated(s); }
      if Seated(s) { ListEmptyIffFull(s); }
    }
  }

  /** The same for every run of a server, whatever clients send. */
  lemma NoRoomOfAServer(es: seq<Event>, fd: int, name: string)
    requires LegalRun(EMPTY, es) && fd in Run(EMPTY, es).agents
    ensures var s := Run(EMPTY, es);
      Ready(s) && (Join(s, fd, name).1 == Err(NoRoomValid) ==> (|s.players| == 10000 <==> Seated(s)))
  {
    AnyRunOfAServer(es);
    NoRoomMeansTenThousandIffSeated(Run(EMPTY, es), fd, name);
  }

  // ----- such a server can be reached

  ghost function Above(s: set<int>): int {
    if x :| x in s then Above(s - {x}) + (if x < 0 then -x else x) + 1 else 0
  }

  lemma {:induction false} AboveAll(s: set<int>, y: int)
    requires y in s
    ensures y < Above(s)
  {
    AboveZero(s);
    var x :| x in s && Above(s) == Above(s - {x}) + (if x < 0 then -x else x) + 1;
    AboveZero(s - {x});
    if y != x { AboveAll(s - {x}, y); }
  }

  lemma AboveZero(s: set<int>)
    ensures Above(s) >= 0
  {}

  ghost function Longer(names: set<string>): string {
    seq(Lengths(names), _ => 'x')
  }

  ghost function Lengths(names: set<string>): nat {
    AboveZero(set m | m in names :: |m|);
    Above(set m | m in names :: |m|)
  }

  lemma LongerIsFresh(names: set<string>)
    ensures Longer(names) !in names
  {
    if Longer(names) in names {
      AboveAll(set m | m in names :: |m|, |Longer(names)|);
    }
  }

  /** The fd and the name of somebody new, who is in no room and whose name was never used. */
  ghost function NewFd(s: Dir): int
    requires Inv(s)
  {
    Above(s.agents.Keys + Everyone(s.rooms, s.base))
  }

  lemma {:induction false} RunSnoc(s: Dir, es: seq<Event>, e: Event)
    requires LegalRun(s, es) && Ready(Run(s, es)) && Legal(Run(s, es), e)
    ensures LegalRun(s, es + [e]) && Run(s, es + [e]) == Step(Run(s, es), e)
    decreases |es|
  {
    if es == [] {
      RunCons(s, e, []);
      assert es + [e] == [e] + [];
    } else {
      var rest := es[1..];
      RunSnoc(Step(s, es[0]), rest, e);
      RunCons(s, es[0], rest + [e]);
      assert es + [e] == [es[0]] + (rest + [e]);
    }
  }

  ghost predicate Reachable(s: Dir) {
    exists es :: LegalRun(EMPTY, es) && Run(EMPTY, es) == s
  }

  lemma ReachStep(s: Dir, e: Event)
    requires Reachable(s) && Ready(s) && Legal(s, e)
    ensures Reachable(Step(s, e))
  {
    var es :| LegalRun(EMPTY, es) && Run(EMPTY, es) == s;
    RunSnoc(EMPTY, es, e);
  }

  /** The server just before the newcomer logs in. */
  lemma NewcomerConnects(s: Dir) returns (u: Dir)
    requires Inv(s)
    ensures Ready(s) && Legal(s, Connect(NewFd(s))) && u == Step(s, Connect(NewFd(s))) && Inv(u) && Ready(u)
    ensures u == s.(agents := u.agents) && NewFd(s) !in s.players && Stay(s, u)
    ensures NewFd(s) in u.agents && !u.agents[NewFd(s)].destroyed
    ensures forall id :: id in s.rooms ==> NewFd(s) !in s.rooms[id].members
  {
    var known := s.agents.Keys + Everyone(s.rooms, s.base);
    EveryoneMembers(s.rooms, s.base);
    forall id, g | id in s.rooms && g in s.rooms[id].members ensures g in known {
      assert 1 <= id <= s.base;
    }
    if NewFd(s) in known { AboveAll(known, NewFd(s)); }
    StepKeepsInv(s, Connect(NewFd(s)));
    u := Step(s, Connect(NewFd(s)));
    InvReady(u);
  }

  lemma HeadsAfterEnter(rooms: map<int, Room>, n: nat, id: int, r: Room)
    requires (forall i :: 1 <= i <= n ==> i in rooms) && 1 <= id <= n + 1
    requires |r.members| == (if id == n + 1 then 1 else |rooms[id].members| + 1)
    ensures HeadCount(rooms[id := r], if id == n + 1 then n + 1 else n) == HeadCount(rooms, n) + 1
  {
    if id == n + 1 {
      SameRooms(rooms, rooms[id := r], n);
    } else {
      OneMoreHead(rooms, rooms[id := r], n, id);
    }
  }

  lemma HeadsAfterJoin(u: Dir, fd: int, name: string)
    requires Inv(u) && Ready(u) && fd in u.agents && !u.agents[fd].destroyed && name !in u.names
    requires forall id :: id in u.rooms ==> fd !in u.rooms[id].members
    requires u.valid != [] || |u.rooms| < MAX_ROOMS
    ensures var t := Join(u, fd, name).0;
      && Inv(t) && HeadCount(t.rooms, t.base) == HeadCount(u.rooms, u.base) + 1
      && t.base == if u.valid == [] then u.base + 1 else u.base
  {
    var t, id := Join(u, fd, name).0, Target(u);
    if u.valid != [] { assert id in u.valid && RoomOk(u.rooms[id]); }
    JoinOk(u, fd, name);
    JoinEffect(u, fd, name);
    assert t.base == if u.valid == [] then u.base + 1 else u.base;
    HeadsAfterEnter(u.rooms, u.base, id, t.rooms[id]);
  }

  /** Joined players stay as they are. */
  ghost predicate Stay(s: Dir, t: Dir) {
    forall fd :: fd in s.players && fd in s.agents ==> fd in t.players && fd in t.agents && t.agents[fd] == s.agents[fd]
  }

  ghost predicate SeatsStayDead(s: Dir, t: Dir) {
    forall fd, id :: DeadSeat(s, fd, id) ==> DeadSeat(t, fd, id)
  }

  lemma OthersStay(u: Dir, fd: int, name: string)
    requires Ready(u) && fd in u.agents && !u.agents[fd].destroyed && fd !in u.players
    ensures Stay(u, Step(u, Login(fd, name)))
  {
    JoinFrame(u, fd, name);
    OthersInJoin(u, fd, name);
  }

  lemma OthersInJoin(u: Dir, fd: int, name: string)
    requires Ready(u) && fd in u.agents
    ensures var t := Join(u, fd, name).0;
      forall g :: g in u.agents && g != fd ==> g in t.agents && t.agents[g] == u.agents[g]
  {}

  /** A newcomer takes a free seat, if there is one. */
  lemma NewcomerSits(s: Dir) returns (t: Dir)
    requires Inv(s) && Reachable(s) && (s.valid != [] || |s.rooms| < MAX_ROOMS)
    ensures Inv(t) && Reachable(t) && HeadCount(t.rooms, t.base) == HeadCount(s.rooms, s.base) + 1
    ensures t.base == if s.valid == [] then s.base + 1 else s.base
    ensures SeatsStayDead(s, t) && Stay(s, t)
  {
    var fd, name := NewFd(s), Longer(s.names);
    var u := NewcomerConnects(s);
    LongerIsFresh(s.names);
    HeadsAfterJoin(u, fd, name);
    StepKeepsInv(u, Login(fd, name));
    OthersStay(u, fd, name);
    t := Step(u, Login(fd, name));
    ReachStep(s, Connect(fd));
    ReachStep(u, Login(fd, name));
    forall g, id | DeadSeat(s, g, id) ensures DeadSeat(t, g, id) {
      StepKeepsDeadSeat(s, Connect(fd), g, id);
      StepKeepsDeadSeat(u, Login(fd, name), g, id);
    }
  }

  lemma {:induction false} SameRooms(rooms: map<int, Room>, more: map<int, Room>, n: nat)
    requires forall id :: 1 <= id <= n ==> id in rooms && id in more && more[id].members == rooms[id].members
    ensures HeadCount(more, n) == HeadCount(rooms, n)
  {
    if n > 0 { SameRooms(rooms, more, n - 1); }
  }

  lemma {:induction false} OneMoreHead(rooms: map<int, Room>, more: map<int, Room>, n: nat, id: int)
    requires 1 <= id <= n && forall i :: 1 <= i <= n ==> i in rooms && i in more
    requires forall i :: 1 <= i <= n && i != id ==> more[i].members == rooms[i].members
    requires |more[id].members| == |rooms[id].members| + 1
    ensures HeadCount(more, n) == HeadCount(rooms, n) + 1
  {
    if n == id {
      SameRooms(rooms, more, n - 1);
    } else {
      OneMoreHead(rooms, more, n - 1, id);
    }
  }

  lemma HeadsBounded(s: Dir)
    requires Inv(s)
    ensures HeadCount(s.rooms, s.base) <= 10000
  {
    PlayersAmongHeads(s);
  }

  /** From any server on, newcomers can fill all its rooms and `n` rooms at least. */
  lemma {:induction false} FillUp(s: Dir, n: nat) returns (t: Dir)
    requires Inv(s) && Reachable(s) && n <= MAX_ROOMS
    ensures Inv(t) && Reachable(t) && t.valid == [] && t.base == if s.base < n then n else s.base
    ensures SeatsStayDead(s, t) && Stay(s, t)
    decreases 10000 - HeadCount(s.rooms, s.base)
  {
    if s.valid == [] && s.base >= n {
      t := s;
    } else {
      var u := NewcomerSits(s);
      HeadsBounded(u);
      t := FillUp(u, n);
    }
  }

  lemma FirstPlayer() returns (s: Dir, fd: int)
    ensures Inv(s) && Reachable(s) && s.base == 1 && fd in s.players && fd in s.agents && s.agents[fd].roomID == 1
  {
    InvEmpty();
    assert LegalRun(EMPTY, []) && Run(EMPTY, []) == EMPTY;
    fd := 7;
    StepKeepsInv(EMPTY, Connect(fd));
    var u := Step(EMPTY, Connect(fd));
    StepKeepsInv(u, Login(fd, "a"));
    s := Step(u, Login(fd, "a"));
    ReachStep(EMPTY, Connect(fd));
    ReachStep(u, Login(fd, "a"));
  }

  /** A server that answers "no room valid" to everybody although fewer than 10000 players are joined. */
  lemma NoRoomWithEmptySeats() returns (s: Dir, fd: int, id: int)
    ensures Reachable(s) && Inv(s) && DeadSeat(s, fd, id) && |s.players| < 10000
    ensures Ready(s) && forall g, name :: g in s.agents && name !in s.names ==> Join(s, g, name).1 == Err(NoRoomValid)
  {
    id := 1;
    s, fd := FirstPlayer();
    s := FillUp(s, 1);
    assert id !in s.valid && id in s.rooms;
    s := LeaveSeat(s, fd, id);
    s := FillUp(s, MAX_ROOMS);
    DeadSeatTakesRoom(s, fd, id);
    InvReady(s);
  }

  lemma LeaveSeat(s: Dir, fd: int, id: int) returns (t: Dir)
    requires Inv(s) && Reachable(s) && fd in s.players && fd in s.agents && s.agents[fd].roomID == id
    requires Target(s) != id && (s.valid != [] || |s.rooms| < MAX_ROOMS)
    ensures Inv(t) && Reachable(t) && DeadSeat(t, fd, id)
  {
    var name := Longer(s.names);
    LongerIsFresh(s.names);
    SeatLostIff(s, fd, name);
    var u := Step(s, Login(fd, name));
    ReachStep(s, Login(fd, name));
    ReachStep(u, Destroy(fd));
    t := Step(u, Destroy(fd));
  }
}
