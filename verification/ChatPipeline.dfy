/**
 The way of a chat line: a connection posts it to the server's bounded call queue, the server's one
 loop hands it to the filter of the sender's room, the worker of that filter's queue masks it and posts a
 callback to the call queue, and the loop appends it to the room's history.  Every queue drops what does
 not fit.  Each filter has a task pool of its own and uses one key.
 */
module ChatPipeline {
  import opened Bytes
  import opened PoolRuns
  import opened Common

  const HISTORY := 50

  /** The filter's id 1 in decimal: the one key of every filter. */
  const FILTER_KEY: seq<byte> := [49]

  /** A chat line; `ticket` is its place among all lines posted by connections. */
  datatype Line = Line(ticket: nat, fd: int, text: string)

  datatype ChatCall = Request(line: Line) | Callback(room: int, job: Job<Line>)

  datatype Room = Room(station: Station<Line>, history: seq<Line>)

  /** `said` only records what was posted. */
  datatype System = System(calls: seq<ChatCall>, rooms: map<int, Room>, said: seq<Line>)

  const IDLE := System([], map[], [])

  function NewRoom(): Room {
    Room(NewStation(0, 0), [])
  }

  /** room.go's `AddMsg`: beyond 50 messages the oldest goes. */
  function AddMsg(h: seq<Line>, line: Line): seq<Line> {
    (if |h| >= HISTORY then h[1..] else h) + [line]
  }

  function Masker(mask: string -> string): Line -> Line {
    (line: Line) => line.(text := mask(line.text))
  }

  datatype ChatEvent =
    | Open(room: int)                 // the manager adds a room
    | Say(fd: int, text: string)      // a connection posts a chat request
    | Turn(dest: Option<int>)         // the loop runs the next call; a request's sender is in room `dest` by then
    | Work(room: int, index: nat)     // the idle worker of a filter queue takes a task
    | Reply(room: int, index: nat)    // it has masked the line and posts the callback
    | Crash(room: int, index: nat)    // the task panics and is recovered

  function WithStation(s: System, room: int, st: Station<Line>): System
    requires room in s.rooms
  {
    s.(rooms := s.rooms[room := s.rooms[room].(station := st)])
  }

  function ShowLine(r: Room, job: Job<Line>): Room {
    Room(Ran(r.station, job), AddMsg(r.history, job.item))
  }

  /** One call of the loop; a request without a room for its sender is dropped. */
  function RunCall(s: System, call: ChatCall, dest: Option<int>): System {
    match call
    case Request(line) =>
      if dest.Some? && dest.value in s.rooms
      then WithStation(s, dest.value, SubmitKeyed(s.rooms[dest.value].station, FILTER_KEY, line, true))
      else s
    case Callback(room, job) =>
      if room in s.rooms then s.(rooms := s.rooms[room := ShowLine(s.rooms[room], job)]) else s
  }

  /** Events that are not possible in a state change nothing. */
  function ChatStep(s: System, e: ChatEvent, limit: nat, mask: string -> string): System {
    match e
    case Open(room) => if room in s.rooms then s else s.(rooms := s.rooms[room := NewRoom()])
    case Say(fd, text) =>
      var line := Line(|s.said|, fd, text);
      s.(calls := Post(s.calls, Request(line), limit), said := s.said + [line])
    case Turn(dest) => if s.calls == [] then s else RunCall(s.(calls := s.calls[1..]), s.calls[0], dest)
    case Work(room, i) => if room in s.rooms then WithStation(s, room, TakeOne(s.rooms[room].station, i)) else s
    case Reply(room, i) =>
      if room in s.rooms && i in s.rooms[room].station.busy then
        var st := s.rooms[room].station;
        var job := Worked(st.busy[i], Masker(mask));
        WithStation(s, room, Ended(st, i, job)).(calls := Post(s.calls, Callback(room, job), limit))
      else s
    case Crash(room, i) => if room in s.rooms then WithStation(s, room, Idle(s.rooms[room].station, i)) else s
  }

  function ChatRun(s: System, es: seq<ChatEvent>, limit: nat, mask: string -> string): System
    decreases |es|
  {
    if es == [] then s else ChatRun(ChatStep(s, es[0], limit, mask), es[1..], limit, mask)
  }

  // ----- one room is one task pool at work

  function SeenBy(call: ChatCall, room: int): Call<Line> {
    if call.Callback? && call.room == room then Done(call.job) else Foreign
  }

  function Seen(calls: seq<ChatCall>, room: int): seq<Call<Line>> {
    seq(|calls|, k requires 0 <= k < |calls| => SeenBy(calls[k], room))
  }

  /** The pool of the room's filter, for which all calls but its own callbacks are foreign. */
  function PoolOf(s: System, room: int): State<Line>
    requires room in s.rooms
  {
    State(s.rooms[room].station, Seen(s.calls, room))
  }

  lemma SeenPost(calls: seq<ChatCall>, call: ChatCall, limit: nat, room: int)
    ensures Seen(Post(calls, call, limit), room) == Post(Seen(calls, room), SeenBy(call, room), limit)
  {}

  lemma SeenRest(calls: seq<ChatCall>, room: int)
    requires calls != []
    ensures Seen(calls, room)[0] == SeenBy(calls[0], room) && Seen(calls[1..], room) == Seen(calls, room)[1..]
  {}

  /** The steps of the pool of `room` that one step of the chat is. */
  function PoolEvents(s: System, e: ChatEvent, room: int): seq<Event<Line>> {
    match e
    case Open(_) => []
    case Say(_, _) => [PostForeign]
    case Turn(dest) =>
      if s.calls != [] && s.calls[0].Request? && dest == Some(room)
      then [Exec, Submit(FILTER_KEY, s.calls[0].line, true)] else [Exec]
    case Work(r, i) => if r == room then [Take(i)] else []
    case Reply(r, i) =>
      if r == room then [Finish(i)]
      else if r in s.rooms && i in s.rooms[r].station.busy then [PostForeign] else []
    case Crash(r, i) => if r == room then [Panic(i)] else []
  }

  lemma RunTwo<A>(s: State<A>, a: Event<A>, b: Event<A>, limit: nat, work: A -> A)
    ensures Run(s, [a], limit, work) == Step(s, a, limit, work)
    ensures Run(s, [a, b], limit, work) == Step(Step(s, a, limit, work), b, limit, work)
  {
    RunCons(s, a, [], limit, work);
    RunCons(s, a, [b], limit, work);
    RunCons(Step(s, a, limit, work), b, [], limit, work);
  }

  lemma TurnIsPoolRun(s: System, dest: Option<int>, room: int, limit: nat, mask: string -> string)
    requires room in s.rooms
    ensures var t := ChatStep(s, Turn(dest), limit, mask);
      room in t.rooms && PoolOf(t, room) == Run(PoolOf(s, room), PoolEvents(s, Turn(dest), room), limit, Masker(mask))
  {
    var p, line := PoolOf(s, room), Line(0, 0, "");
    if s.calls != [] {
      SeenRest(s.calls, room);
      if s.calls[0].Request? { line := s.calls[0].line; }
    }
    RunTwo(p, Exec, Submit(FILTER_KEY, line, true), limit, Masker(mask));
  }

  /** All tasks of a filter have callbacks. */
  ghost predicate Answered(st: Station<Line>) {
    forall i :: i in st.busy ==> st.busy[i].back
  }

  /** Every step of the chat is a run of the room's pool. */
  lemma ChatStepIsPoolRun(s: System, e: ChatEvent, room: int, limit: nat, mask: string -> string)
    requires room in s.rooms && Answered(s.rooms[room].station)
    ensures var t := ChatStep(s, e, limit, mask);
      room in t.rooms && PoolOf(t, room) == Run(PoolOf(s, room), PoolEvents(s, e, room), limit, Masker(mask))
  {
    var p, work := PoolOf(s, room), Masker(mask);
    match e
    case Open(_) =>
    case Say(fd, text) =>
      SeenPost(s.calls, Request(Line(|s.said|, fd, text)), limit, room);
      RunTwo(p, PostForeign, Exec, limit, work);
    case Turn(dest) => TurnIsPoolRun(s, dest, room, limit, mask);
    case Work(r, i) => RunTwo(p, Take(i), Exec, limit, work);
    case Reply(r, i) =>
      if r in s.rooms && i in s.rooms[r].station.busy {
        SeenPost(s.calls, Callback(r, Worked(s.rooms[r].station.busy[i], work)), limit, room);
      }
      RunTwo(p, Finish(i), Exec, limit, work);
      RunTwo(p, PostForeign, Exec, limit, work);
    case Crash(r, i) => RunTwo(p, Panic(i), Exec, limit, work);
  }

  /** Callbacks come from rooms that exist. */
  ghost predicate KnownRooms(s: System) {
    forall k :: 0 <= k < |s.calls| && s.calls[k].Callback? ==> s.calls[k].room in s.rooms
  }

  lemma StepKnowsRooms(s: System, e: ChatEvent, limit: nat, mask: string -> string)
    requires KnownRooms(s)
    ensures KnownRooms(ChatStep(s, e, limit, mask)) && s.rooms.Keys <= ChatStep(s, e, limit, mask).rooms.Keys
  {}

  /** A room that has just been opened has an unused pool, whatever is on its way elsewhere. */
  lemma OpenedIsUnused(s: System, room: int, limit: nat, mask: string -> string)
    requires KnownRooms(s) && room !in s.rooms
    ensures Unused(PoolOf(ChatStep(s, Open(room), limit, mask), room))
  {}

  // ----- lines reach the filter in the order in which they were said

  function Requests(calls: seq<ChatCall>): seq<Line> {
    if calls == [] then [] else (if calls[0].Request? then [calls[0].line] else []) + Requests(calls[1..])
  }

  lemma {:induction false} RequestPosted(calls: seq<ChatCall>, call: ChatCall)
    ensures Requests(calls + [call]) == Requests(calls) + if call.Request? then [call.line] else []
  {
    if calls != [] {
      assert (calls + [call])[1..] == calls[1..] + [call];
      RequestPosted(calls[1..], call);
    }
  }

  function Items(jobs: seq<Job<Line>>): seq<Line> {
    seq(|jobs|, k requires 0 <= k < |jobs| => jobs[k].item)
  }

  function SentTo(s: System, room: int): seq<Line> {
    if room in s.rooms then Items(s.rooms[room].station.sent) else []
  }

  /** Lines as they were said, in that order and without repeats. */
  ghost predicate AsSaid(lines: seq<Line>, said: seq<Line>) {
    && (forall a, b :: 0 <= a < b < |lines| ==> lines[a].ticket < lines[b].ticket)
    && (forall a :: 0 <= a < |lines| ==> lines[a].ticket < |said| && lines[a] == said[lines[a].ticket])
  }

  /** What the room's filter was given, and then what is still in the call queue. */
  function Submitted(s: System, room: int): seq<Line> {
    SentTo(s, room) + Requests(s.calls)
  }

  lemma AsSaidLess(a: seq<Line>, x: Line, b: seq<Line>, said: seq<Line>)
    requires AsSaid(a + ([x] + b), said)
    ensures AsSaid(a + b, said)
  {
    var all, less := a + ([x] + b), a + b;
    assert forall k :: 0 <= k < |less| ==> less[k] == all[if k < |a| then k else k + 1];
  }

  lemma AsSaidMore(lines: seq<Line>, line: Line, said: seq<Line>)
    requires AsSaid(lines, said) && line.ticket == |said|
    ensures AsSaid(lines, said + [line]) && AsSaid(lines + [line], said + [line])
  {}

  lemma SubmittedBySay(s: System, fd: int, text: string, room: int, limit: nat, mask: string -> string)
    ensures var t, line := ChatStep(s, Say(fd, text), limit, mask), Line(|s.said|, fd, text);
      && t.said == s.said + [line]
      && (Submitted(t, room) == Submitted(s, room) || Submitted(t, room) == Submitted(s, room) + [line])
  {
    var t, line := ChatStep(s, Say(fd, text), limit, mask), Line(|s.said|, fd, text);
    assert SentTo(t, room) == SentTo(s, room);
    if |s.calls| < limit {
      RequestPosted(s.calls, Request(line));
      assert SentTo(s, room) + (Requests(s.calls) + [line]) == Submitted(s, room) + [line];
    }
  }

  lemma SayAsSaid(s: System, fd: int, text: string, room: int, limit: nat, mask: string -> string)
    requires AsSaid(Submitted(s, room), s.said)
    ensures var t := ChatStep(s, Say(fd, text), limit, mask); AsSaid(Submitted(t, room), t.said)
  {
    AsSaidMore(Submitted(s, room), Line(|s.said|, fd, text), s.said);
    SubmittedBySay(s, fd, text, room, limit, mask);
  }

  lemma SentByTurn(s: System, call: ChatCall, dest: Option<int>, room: int)
    ensures var now := SentTo(RunCall(s, call, dest), room);
      now == SentTo(s, room) || (call.Request? && now == SentTo(s, room) + [call.line])
  {
    if call.Request? && dest == Some(room) && room in s.rooms {
      var st := s.rooms[room].station;
      if st.pool.queues != [] {
        assert Items(SubmitKeyed(st, FILTER_KEY, call.line, true).sent) == Items(st.sent) + [call.line];
      }
    }
  }

  /** A request leaves the call queue for the room's filter, for another one or for nowhere. */
  lemma TakenAsSaid(before: seq<Line>, line: Line, rest: seq<Line>, now: seq<Line>, said: seq<Line>)
    requires AsSaid(before + ([line] + rest), said) && (now == before || now == before + [line])
    ensures AsSaid(now + rest, said)
  {
    AsSaidLess(before, line, rest, said);
    assert before + ([line] + rest) == (before + [line]) + rest;
  }

  lemma RequestAsSaid(s: System, t: System, room: int)
    requires s.calls != [] && s.calls[0].Request? && t.calls == s.calls[1..] && t.said == s.said
    requires SentTo(t, room) == SentTo(s, room) || SentTo(t, room) == SentTo(s, room) + [s.calls[0].line]
    requires AsSaid(Submitted(s, room), s.said)
    ensures AsSaid(Submitted(t, room), t.said)
  {
    assert Requests(s.calls) == [s.calls[0].line] + Requests(t.calls);
    TakenAsSaid(SentTo(s, room), s.calls[0].line, Requests(t.calls), SentTo(t, room), s.said);
  }

  lemma CallbackAsSaid(s: System, t: System, room: int)
    requires s.calls != [] && s.calls[0].Callback? && t.calls == s.calls[1..] && t.said == s.said
    requires SentTo(t, room) == SentTo(s, room) && AsSaid(Submitted(s, room), s.said)
    ensures AsSaid(Submitted(t, room), t.said)
  {
    assert Requests(s.calls) == [] + Requests(t.calls);
    assert Submitted(t, room) == Submitted(s, room);
  }

  lemma TurnAsSaid(s: System, dest: Option<int>, room: int, limit: nat, mask: string -> string)
    requires AsSaid(Submitted(s, room), s.said) && s.calls != []
    ensures var t := ChatStep(s, Turn(dest), limit, mask); AsSaid(Submitted(t, room), t.said)
  {
    var t := ChatStep(s, Turn(dest), limit, mask);
    SentByTurn(s.(calls := s.calls[1..]), s.calls[0], dest, room);
    assert t.said == s.said && t.calls == s.calls[1..];
    if s.calls[0].Request? { RequestAsSaid(s, t, room); } else { CallbackAsSaid(s, t, room); }
  }

  lemma QuietStep(s: System, e: ChatEvent, room: int, limit: nat, mask: string -> string)
    requires !e.Say? && !(e.Turn? && s.calls != [])
    ensures var t := ChatStep(s, e, limit, mask); Submitted(t, room) == Submitted(s, room) && t.said == s.said
  {
    var t := ChatStep(s, e, limit, mask);
    if e.Reply? && e.room in s.rooms && e.index in s.rooms[e.room].station.busy {
      RequestPosted(s.calls, Callback(e.room, Worked(s.rooms[e.room].station.busy[e.index], Masker(mask))));
    }
    assert Requests(t.calls) == Requests(s.calls) && SentTo(t, room) == SentTo(s, room);
  }

  /** Whatever happens, the filter gets the lines in the order in which they were said. */
  lemma StepAsSaid(s: System, e: ChatEvent, room: int, limit: nat, mask: string -> string)
    requires AsSaid(Submitted(s, room), s.said)
    ensures var t := ChatStep(s, e, limit, mask); AsSaid(Submitted(t, room), t.said)
  {
    if e.Say? {
      SayAsSaid(s, e.fd, e.text, room, limit, mask);
    } else if e.Turn? && s.calls != [] {
      TurnAsSaid(s, e.dest, room, limit, mask);
    } else {
      QuietStep(s, e, room, limit, mask);
    }
  }
}
