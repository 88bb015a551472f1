/**
 The chat pipeline as it is built: each room owns the task pool of its filter and a linked list of
 messages, and all rooms share the call queue of the server's one loop.
 */
module ChatServer {
  import opened Common
  import opened LinkedList
  import opened ChatPipeline
  import P = PoolRuns
  import T = TaskPool

  /** rpc.NewServer(10000) in self.go. */
  const CALLS := 10000

  class ChatRoom {
    const filter: T.TaskQueues<P.Job<Line>>
    const historyMsgs: List<Line>
    var busy: map<nat, P.Job<Line>>   // what the workers of the filter hold
    var sent: seq<P.Job<Line>>        // a record that the source does not keep, like the next two
    var done: seq<P.Job<Line>>
    var ran: seq<P.Job<Line>>

    ghost function Station(): P.Station<Line>
      reads this, filter
    {
      P.Station(filter.State(), busy, sent, done, ran)
    }

    ghost function State(): Room
      reads this, filter, historyMsgs
    {
      Room(Station(), Values(historyMsgs.items))
    }

    ghost predicate Valid()
      reads filter
    {
      T.Sound(filter.State())
    }

    constructor ()
      ensures Valid() && State() == NewRoom() && fresh(filter) && fresh(historyMsgs)
    {
      filter := new T.TaskQueues<P.Job<Line>>(0, 0);
      historyMsgs := new List();
      busy, sent, done, ran := map[], [], [], [];
    }

    /** room.go's `AddMsg`: unlink the oldest element beyond 50, link a new one, return the new length. */
    method AddMsg(line: Line) returns (count: nat)
      modifies historyMsgs
      ensures Values(historyMsgs.items) == ChatPipeline.AddMsg(old(Values(historyMsgs.items)), line)
      ensures count == |historyMsgs.items|
    {
      count := |historyMsgs.items|;
      if count >= HISTORY {
        historyMsgs.Remove(historyMsgs.items[0]);
        count := count - 1;
      }
      var _ := historyMsgs.PushBack(line);
      count := count + 1;
    }

    /** filter.go's `Check`: submit the line to the filter's pool under its one key. */
    method Check(line: Line)
      requires Valid()
      modifies `sent, filter
      ensures Valid() && State() == old(State()).(station := P.SubmitKeyed(old(Station()), FILTER_KEY, line, true))
    {
      var slot := T.KeyIndex(FILTER_KEY, |filter.queues|);
      var job := P.Job(|sent|, FILTER_KEY, slot, line, true);
      var _ := filter.AddKeyedTask(job, FILTER_KEY);
      sent := sent + [job];
    }

    /** pool.go's `ProcessTask`: an idle worker receives from its queue. */
    method Work(i: nat)
      requires Valid()
      modifies `busy, filter
      ensures Valid() && State() == old(State()).(station := P.TakeOne(old(Station()), i))
    {
      if i < |filter.queues| && i !in busy && filter.queues[i] != [] {
        var job := filter.TakeTask(i);
        busy := busy[i := job];
      }
    }

    method Release(i: nat)
      modifies `busy
      ensures State() == old(State()).(station := P.Idle(old(Station()), i))
    {
      busy := busy - {i};
    }

    /** pool.go's `executeFun`, as far as the worker goes: the task in its hands is masked. */
    method Execute(i: nat, mask: string -> string) returns (job: P.Job<Line>)
      requires i in busy
      modifies `busy, `done
      ensures job == P.Worked(old(busy[i]), Masker(mask))
      ensures State() == old(State()).(station := P.Ended(old(Station()), i, job))
    {
      job := P.Worked(busy[i], Masker(mask));
      busy := busy - {i};
      done := done + [job];
    }

    /** The callback of `RoomChat`: the masked line becomes a message of the room. */
    method Show(job: P.Job<Line>)
      modifies `ran, historyMsgs
      ensures State() == ShowLine(old(State()), job)
    {
      var _ := AddMsg(job.item);
      ran := ran + [job];
    }
  }

  predicate Apart(r: ChatRoom, s: ChatRoom) {
    r != s && r.filter != s.filter && r.historyMsgs != s.historyMsgs
  }

  class Server {
    const limit: nat
    const mask: string -> string
    var calls: seq<ChatCall>
    var rooms: map<int, ChatRoom>
    var said: seq<Line>

    ghost var repr: set<object>  // the rooms and what they own

    /** No two rooms share anything. */
    ghost predicate Valid()
      reads this, repr
    {
      && (forall id :: id in rooms ==>
            rooms[id] in repr && rooms[id].filter in repr && rooms[id].historyMsgs in repr && rooms[id].Valid())
      && (forall a, b {:trigger Apart(rooms[a], rooms[b])} :: a in rooms && b in rooms && a != b ==>
            Apart(rooms[a], rooms[b]))
    }

    /** These objects stand for a state of the pipeline. */
    ghost function State(): System
      requires Valid()
      reads this, repr
    {
      System(calls, map id | id in rooms :: rooms[id].State(), said)
    }

    constructor (mask: string -> string)
      ensures Valid() && State() == IDLE && limit == 10000 && this.mask == mask
    {
      limit, this.mask := CALLS, mask;
      calls, rooms, said, repr := [], map[], [], {};
    }

    /** rpc.go's `AddChanCall`: never blocks, drops the call when the queue is full. */
    method AddChanCall(call: ChatCall)
      requires Valid()
      modifies `calls
      ensures Valid() && State() == old(State()).(calls := P.Post(old(calls), call, limit))
    {
      if |calls| < limit {
        calls := calls + [call];
      }
    }

    method Register(id: int, room: ChatRoom)
      requires Valid() && id !in rooms && room.Valid() && room.State() == NewRoom()
      requires room !in repr && room.filter !in repr && room.historyMsgs !in repr
      modifies `rooms, `repr
      ensures Valid() && State() == ChatStep(old(State()), Open(id), limit, mask)
      ensures repr == old(repr) + {room, room.filter, room.historyMsgs}
    {
      rooms := rooms[id := room];
      repr := repr + {room, room.filter, room.historyMsgs};
      StaysApart(id);
      OneRoomMore(id);
    }

    /** One more room that shares nothing with the others. */
    twostate lemma StaysApart(id: int)
      requires old(Valid()) && id !in old(rooms) && id in rooms && rooms == old(rooms)[id := rooms[id]]
      requires forall r :: r in old(rooms) ==>
                 unchanged(rooms[r]) && unchanged(rooms[r].filter) && unchanged(rooms[r].historyMsgs)
      requires rooms[id].Valid()
      requires rooms[id] !in old(repr) && rooms[id].filter !in old(repr) && rooms[id].historyMsgs !in old(repr)
      requires repr == old(repr) + {rooms[id], rooms[id].filter, rooms[id].historyMsgs}
      ensures Valid()
    {
      forall r | r in old(rooms) ensures rooms[r].Valid() { assert old(rooms[r].Valid()); }
    }

    twostate lemma OneRoomMore(id: int)
      requires old(Valid()) && Valid() && id !in old(rooms) && id in rooms && rooms == old(rooms)[id := rooms[id]]
      requires forall r :: r in old(rooms) ==>
                 unchanged(rooms[r]) && unchanged(rooms[r].filter) && unchanged(rooms[r].historyMsgs)
      requires rooms[id].State() == NewRoom() && calls == old(calls) && said == old(said)
      ensures State() == ChatStep(old(State()), Open(id), limit, mask)
    {
      forall r | r in old(rooms) ensures rooms[r].State() == old(rooms[r].State()) {}
      assert State().rooms == old(State()).rooms[id := NewRoom()];
    }

    /** The chat side of mgr.go's `AddRoom`. */
    method OpenRoom(id: int)
      requires Valid()
      modifies `rooms, `repr
      ensures Valid() && State() == ChatStep(old(State()), Open(id), limit, mask) && fresh(repr - old(repr))
    {
      if id !in rooms {
        var room := new ChatRoom();
        Register(id, room);
      }
    }

    /** A connection's read loop posts a chat request. */
    method SayLine(fd: int, text: string)
      requires Valid()
      modifies `calls, `said
      ensures Valid() && State() == ChatStep(old(State()), Say(fd, text), limit, mask)
    {
      var line := Line(|said|, fd, text);
      said := said + [line];
      AddChanCall(Request(line));
    }

    /** What happened to one room is all that happened. */
    twostate lemma OnlyRoom(id: int)
      requires old(Valid()) && rooms == old(rooms) && repr == old(repr) && id in rooms && rooms[id].Valid()
      requires forall r :: r in rooms && Apart(rooms[r], rooms[id]) ==>
                 unchanged(rooms[r]) && unchanged(rooms[r].filter) && unchanged(rooms[r].historyMsgs)
      ensures Valid() && State().rooms == old(State()).rooms[id := rooms[id].State()]
    {
      forall r | r in rooms ensures rooms[r].Valid() {
        if r != id { assert Apart(rooms[r], rooms[id]) && old(rooms[r].Valid()); }
      }
      forall r | r in rooms && r != id ensures rooms[r].State() == old(rooms[r].State()) {
        assert Apart(rooms[r], rooms[id]);
      }
    }

    /** mgr.go's `RoomChat` for a line of a member of room `dest`. */
    method RoomChat(line: Line, dest: Option<int>)
      requires Valid()
      modifies repr
      ensures Valid() && State() == RunCall(old(State()), Request(line), dest)
    {
      if dest.Some? && dest.value in rooms {
        var id := dest.value;
        assert rooms[id].Valid();
        rooms[id].Check(line);
        OnlyRoom(id);
      }
    }

    method RunCallback(room: int, job: P.Job<Line>)
      requires Valid()
      modifies repr
      ensures Valid() && State() == RunCall(old(State()), Callback(room, job), None)
    {
      if room in rooms {
        rooms[room].Show(job);
        OnlyRoom(room);
      }
    }

    /** server.go's `Run`: one turn of the loop, when the request's sender is in room `dest`. */
    method RunTurn(dest: Option<int>)
      requires Valid()
      modifies `calls, repr
      ensures Valid() && State() == ChatStep(old(State()), Turn(dest), limit, mask)
    {
      if calls == [] {
        return;
      }
      var call := NextCall();
      match call {
        case Request(line) => RoomChat(line, dest);
        case Callback(room, job) => RunCallback(room, job);
      }
    }

    method NextCall() returns (call: ChatCall)
      requires Valid() && calls != []
      modifies `calls
      ensures Valid() && State() == old(State()).(calls := old(calls)[1..]) && call == old(calls[0])
    {
      call := calls[0];
      calls := calls[1..];
    }

    method WorkAt(room: int, i: nat)
      requires Valid()
      modifies repr
      ensures Valid() && State() == ChatStep(old(State()), ChatEvent.Work(room, i), limit, mask)
    {
      if room in rooms {
        rooms[room].Work(i);
        OnlyRoom(room);
      }
    }

    /** pool.go's recover: a task that panics posts nothing. */
    method Recover(room: int, i: nat)
      requires Valid()
      modifies repr
      ensures Valid() && State() == ChatStep(old(State()), Crash(room, i), limit, mask)
    {
      if room in rooms {
        rooms[room].Release(i);
        OnlyRoom(room);
      }
    }

    /** The worker's half of `executeFun`. */
    method ExecuteAt(room: int, i: nat) returns (job: P.Job<Line>)
      requires Valid() && room in rooms && i in rooms[room].busy
      modifies repr
      ensures Valid() && i in old(State()).rooms[room].station.busy
      ensures job == P.Worked(old(State()).rooms[room].station.busy[i], Masker(mask))
      ensures State() == WithStation(old(State()), room, P.Ended(old(State()).rooms[room].station, i, job))
    {
      job := rooms[room].Execute(i, mask);
      OnlyRoom(room);
    }

    /** pool.go's `executeFun`: mask the line, then post the callback to the loop. */
    method ReplyFrom(room: int, i: nat)
      requires Valid()
      modifies `calls, repr
      ensures Valid() && State() == ChatStep(old(State()), Reply(room, i), limit, mask)
    {
      if room in rooms && i in rooms[room].busy {
        var job := ExecuteAt(room, i);
        AddChanCall(Callback(room, job));
      }
    }
  }
}
