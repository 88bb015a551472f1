/** When a chat line is dropped, and that a line which is not dropped reaches the history. */
module ChatLaws {
  import opened Common
  import opened Bytes
  import opened PoolRuns
  import opened ChatPipeline
  import opened ChatHistory
  import T = TaskPool
  import L = PoolLaws

  // ----- the call queue

  /** A chat request is appended to the call queue while that has space, and only then. */
  lemma SayPosts(s: System, fd: int, text: string, limit: nat, mask: string -> string)
    ensures var t, line := ChatStep(s, Say(fd, text), limit, mask), Line(|s.said|, fd, text);
      && t.said == s.said + [line] && t.rooms == s.rooms
      && t.calls == if |s.calls| < limit then s.calls + [Request(line)] else s.calls
  {}

  /** So is the callback of a masked line. */
  lemma ReplyPosts(s: System, room: int, i: nat, limit: nat, mask: string -> string)
    requires room in s.rooms && i in s.rooms[room].station.busy
    ensures var t, job := ChatStep(s, Reply(room, i), limit, mask), s.rooms[room].station.busy[i];
      && t.said == s.said && room in t.rooms && t.rooms[room].history == s.rooms[room].history
      && t.rooms[room].station.busy == s.rooms[room].station.busy - {i}
      && var call := Callback(room, job.(item := job.item.(text := mask(job.item.text))));
         t.calls == if |s.calls| < limit then s.calls + [call] else s.calls
  {}

  /** The chat requests of connections, without a turn of the loop in between. */
  function Says(lines: seq<(int, string)>): (es: seq<ChatEvent>)
    ensures |es| == |lines|
  {
    seq(|lines|, k requires 0 <= k < |lines| => Say(lines[k].0, lines[k].1))
  }

  function Asked(lines: seq<(int, string)>, from: nat, n: nat): seq<ChatCall>
    requires n <= |lines|
  {
    seq(n, k requires 0 <= k < n => Request(Line(from + k, lines[k].0, lines[k].1)))
  }

  /** Of m requests in a row the first ones are kept, as many as there is space for. */
  lemma {:induction false} CallsFill(s: System, lines: seq<(int, string)>, limit: nat, mask: string -> string)
    ensures var room := if |s.calls| < limit then limit - |s.calls| else 0;
      var n := if |lines| < room then |lines| else room;
      ChatRun(s, Says(lines), limit, mask).calls == s.calls + Asked(lines, |s.said|, n)
    decreases |lines|
  {
    if lines != [] {
      var t := ChatStep(s, Say(lines[0].0, lines[0].1), limit, mask);
      assert Says(lines)[1..] == Says(lines[1..]);
      CallsFill(t, lines[1..], limit, mask);
      if |s.calls| < limit {
        var space := limit - |s.calls|;
        var n := if |lines| < space then |lines| else space;
        assert Asked(lines, |s.said|, n) == Asked(lines, |s.said|, 1) + Asked(lines[1..], |t.said|, n - 1);
        assert t.calls == s.calls + Asked(lines, |s.said|, 1);
      }
    }
  }

  // ----- one line on its way

  /** A turn hands the oldest request to the filter of its sender's room and does nothing else. */
  lemma TurnHands(s: System, dest: Option<int>, limit: nat, mask: string -> string)
    requires s.calls != [] && s.calls[0].Request?
    ensures var t := ChatStep(s, Turn(dest), limit, mask);
      && t.calls == s.calls[1..] && t.said == s.said && t.rooms.Keys == s.rooms.Keys
      && (forall r :: r in s.rooms && dest != Some(r) ==> t.rooms[r] == s.rooms[r])
      && (forall r :: r in s.rooms && dest == Some(r) && s.rooms[r].station.pool.queues != [] ==>
            && t.rooms[r].history == s.rooms[r].history
            && SentTo(t, r) == SentTo(s, r) + [s.calls[0].line])
  {
    if dest.Some? && dest.value in s.rooms && s.rooms[dest.value].station.pool.queues != [] {
      var st := s.rooms[dest.value].station;
      assert Items(SubmitKeyed(st, FILTER_KEY, s.calls[0].line, true).sent) == Items(st.sent) + [s.calls[0].line];
    }
  }

  /** A line said in a quiet room is masked and becomes the newest message of the history. */
  lemma LineArrives(s: System, room: int, fd: int, text: string, limit: nat, mask: string -> string)
    requires s.calls == [] && limit > 0 && room in s.rooms && T.Sound(s.rooms[room].station.pool)
    requires var st := s.rooms[room].station; var i := T.KeyIndex(FILTER_KEY, |st.pool.queues|);
      st.pool.queues[i] == [] && i !in st.busy
    ensures var i := T.KeyIndex(FILTER_KEY, |s.rooms[room].station.pool.queues|);
      var t := ChatRun(s, [Say(fd, text), Turn(Some(room)), Work(room, i), Reply(room, i), Turn(None)], limit, mask);
      var h, line := s.rooms[room].history, Line(|s.said|, fd, mask(text));
      && t.calls == [] && room in t.rooms
      && t.rooms[room].history == (if |h| >= 50 then h[1..] else h) + [line]
  {
    var st := s.rooms[room].station;
    var i := T.KeyIndex(FILTER_KEY, |st.pool.queues|);
    var job := Job(|st.sent|, FILTER_KEY, i, Line(|s.said|, fd, text), true);
    var s1 := ChatStep(s, Say(fd, text), limit, mask);
    assert s1.calls == [Request(job.item)];
    var s2 := ChatStep(s1, Turn(Some(room)), limit, mask);
    assert s2.calls == [] && s2.rooms[room].station.pool.queues[i] == [job];
    var s3 := ChatStep(s2, Work(room, i), limit, mask);
    assert s3.calls == [] && s3.rooms[room].station.busy[i] == job;
    var s4 := ChatStep(s3, Reply(room, i), limit, mask);
    assert s4.calls == [Callback(room, Worked(job, Masker(mask)))];
    var s5 := ChatStep(s4, Turn(None), limit, mask);
    ChatCons(s, Say(fd, text), [Turn(Some(room)), Work(room, i), Reply(room, i), Turn(None)], limit, mask);
    ChatCons(s1, Turn(Some(room)), [Work(room, i), Reply(room, i), Turn(None)], limit, mask);
    ChatCons(s2, Work(room, i), [Reply(room, i), Turn(None)], limit, mask);
    ChatCons(s3, Reply(room, i), [Turn(None)], limit, mask);
    ChatCons(s4, Turn(None), [], limit, mask);
  }

  lemma ChatCons(s: System, e: ChatEvent, es: seq<ChatEvent>, limit: nat, mask: string -> string)
    ensures ChatRun(s, [e] + es, limit, mask) == ChatRun(ChatStep(s, e, limit, mask), es, limit, mask)
  {
    assert ([e] + es)[1..] == es;
  }

  // ----- runs that lose nothing

  /** The step finds no full queue on the way of the room's lines, and no task of its filter panics. */
  predicate Spares(s: System, e: ChatEvent, room: int, limit: nat)
    requires room in s.rooms
  {
    var st := s.rooms[room].station;
    match e
    case Turn(dest) =>
      s.calls != [] && s.calls[0].Request? && dest == Some(room) ==>
        st.pool.queues != [] && L.HasSpace(st.pool, T.KeyIndex(FILTER_KEY, |st.pool.queues|))
    case Reply(r, i) => r == room && i in st.busy ==> |s.calls| < limit
    case Crash(r, i) => r == room ==> i !in st.busy
    case _ => true
  }

  ghost predicate SparesRun(s: System, es: seq<ChatEvent>, room: int, limit: nat, mask: string -> string)
    requires room in s.rooms
    decreases |es|
  {
    es == [] ||
    (Spares(s, es[0], room, limit)
     && room in ChatStep(s, es[0], limit, mask).rooms
     && SparesRun(ChatStep(s, es[0], limit, mask), es[1..], room, limit, mask))
  }

  ghost predicate Lossless(s: System, room: int, mask: string -> string) {
    ChatInv(s, room, mask) && room in s.rooms && L.Good(PoolOf(s, room), Masker(mask))
  }

  lemma SparesIsHarmless(s: System, e: ChatEvent, room: int, limit: nat, mask: string -> string)
    requires room in s.rooms && Spares(s, e, room, limit)
    ensures L.HarmlessRun(PoolOf(s, room), PoolEvents(s, e, room), limit, Masker(mask))
  {
    var p, es := PoolOf(s, room), PoolEvents(s, e, room);
    if |es| == 2 {
      var q := Step(p, es[0], limit, Masker(mask));
      SeenRest(s.calls, room);
      assert q.st == p.st;
      assert es[1..] == [es[1]] && es[1..][1..] == [];
    } else if |es| == 1 {
      assert es[1..] == [];
    }
  }

  lemma StepLossless(s: System, e: ChatEvent, room: int, limit: nat, mask: string -> string)
    requires Lossless(s, room, mask) && Spares(s, e, room, limit)
    ensures Lossless(ChatStep(s, e, limit, mask), room, mask)
  {
    StepInOrder(s, e, room, limit, mask);
    KeptIsAnswered(s, room, mask);
    ChatStepIsPoolRun(s, e, room, limit, mask);
    SparesIsHarmless(s, e, room, limit, mask);
    L.HarmlessRunIsComplete(PoolOf(s, room), PoolEvents(s, e, room), limit, Masker(mask));
  }

  lemma {:induction false} RunLossless(s: System, es: seq<ChatEvent>, room: int, limit: nat, mask: string -> string)
    requires Lossless(s, room, mask) && SparesRun(s, es, room, limit, mask)
    ensures Lossless(ChatRun(s, es, limit, mask), room, mask)
    decreases |es|
  {
    if es != [] {
      StepLossless(s, es[0], room, limit, mask);
      RunLossless(ChatStep(s, es[0], limit, mask), es[1..], room, limit, mask);
    }
  }

  ghost predicate Rises(ts: seq<nat>) {
    forall a, b :: 0 <= a < b < |ts| ==> ts[a] < ts[b]
  }

  /** Rising numbers that miss none below their last one count from 0. */
  lemma {:induction false} NoGaps(ts: seq<nat>, k: nat)
    requires Rises(ts) && k < |ts|
    requires forall t: nat :: t in ts || forall a :: 0 <= a < |ts| ==> ts[a] < t
    ensures ts[k] == k
  {
    forall j | 0 <= j < k ensures ts[j] == j { NoGaps(ts, j); }
    assert k > 0 ==> ts[k - 1] == k - 1;
    var t: nat := k;
    assert !(ts[k] < t) && t in ts;
  }

  function Tickets(jobs: seq<Job<Line>>): seq<nat> {
    seq(|jobs|, k requires 0 <= k < |jobs| => jobs[k].ticket)
  }

  /** Without losses each submission has its callback, or all callbacks so far are of earlier ones. */
  lemma CallbackOrLater(p: State<Line>, work: Line -> Line, slot: nat, t: nat)
    requires L.Good(p, work)
    requires forall j :: 0 <= j < |p.st.sent| ==> p.st.sent[j].slot == slot && p.st.sent[j].back
    ensures t in Tickets(Finished(p)) || forall a :: 0 <= a < |Finished(p)| ==> Finished(p)[a].ticket < t
  {
    var fin := Finished(p);
    AllOneSlot(p, work, slot);
    if t < |p.st.sent| {
      var job := p.st.sent[t];
      assert L.Kept(p, p.st.sent[t], work);
      if Worked(job, work) in p.st.done {
        var x :| 0 <= x < |p.st.done| && p.st.done[x] == Worked(job, work);
        assert L.CallbackKept(p, p.st.done[x]);
        var m :| 0 <= m < |fin| && fin[m] == Worked(job, work);
        assert Tickets(fin)[m] == t;
      } else {
        assert QueueInOrder(fin, Pending(p.st, slot), p.st.sent, slot);
        assert forall a :: 0 <= a < |fin| ==> fin[a] in fin;
      }
    }
  }

  /** Without losses the k-th callback is that of the k-th submission. */
  lemma InSequence(p: State<Line>, work: Line -> Line, slot: nat, k: nat)
    requires L.Good(p, work) && k < |Finished(p)|
    requires forall j :: 0 <= j < |p.st.sent| ==> p.st.sent[j].slot == slot && p.st.sent[j].back
    ensures k < |p.st.sent| && Finished(p)[k] == Worked(p.st.sent[k], work)
  {
    var ts := Tickets(Finished(p));
    AllOneSlot(p, work, slot);
    forall t: nat ensures t in ts || forall a :: 0 <= a < |ts| ==> ts[a] < t { CallbackOrLater(p, work, slot, t); }
    NoGaps(ts, k);
  }

  lemma AllOneSlot(p: State<Line>, work: Line -> Line, slot: nat)
    requires Inv(p, work) && forall j :: 0 <= j < |p.st.sent| ==> p.st.sent[j].slot == slot
    ensures forall k :: 0 <= k < |Finished(p)| ==>
      Finished(p)[k].slot == slot && Finished(p)[k].ticket < |p.st.sent|
      && Finished(p)[k] == Worked(p.st.sent[Finished(p)[k].ticket], work)
    ensures forall a, b :: 0 <= a < b < |Finished(p)| ==> Finished(p)[a].ticket < Finished(p)[b].ticket
  {
    forall k | 0 <= k < |Finished(p)|
      ensures Finished(p)[k].slot == slot && Finished(p)[k].ticket < |p.st.sent|
              && Finished(p)[k] == Worked(p.st.sent[Finished(p)[k].ticket], work)
    {
      assert Finished(p)[k] in Finished(p);
    }
  }

  function MaskedLines(lines: seq<Line>, mask: string -> string): seq<Line> {
    seq(|lines|, k requires 0 <= k < |lines| => lines[k].(text := mask(lines[k].text)))
  }

  lemma ShownAt(s: System, room: int, mask: string -> string, k: nat)
    requires Lossless(s, room, mask)
    ensures var ran := s.rooms[room].station.ran;
      k < |ran| ==> k < |SentTo(s, room)| && ran[k].item == MaskedLines(SentTo(s, room), mask)[k]
  {
    var st, p := s.rooms[room].station, PoolOf(s, room);
    if k >= |st.ran| { return; }
    forall j | 0 <= j < |st.sent| ensures st.sent[j].slot == T.KeyIndex(FILTER_KEY, |st.pool.queues|) {
      assert st.sent[j].key == FILTER_KEY;
    }
    InSequence(p, Masker(mask), T.KeyIndex(FILTER_KEY, |st.pool.queues|), k);
    assert Finished(p)[k] == st.ran[k];
  }

  /** What was shown in a room without losses: a beginning of what its filter was given, each line masked. */
  lemma ShownInSequence(s: System, room: int, mask: string -> string)
    requires Lossless(s, room, mask)
    ensures var shown := Items(s.rooms[room].station.ran);
      |shown| <= |SentTo(s, room)| && shown == MaskedLines(SentTo(s, room)[..|shown|], mask)
  {
    var shown, sent := Items(s.rooms[room].station.ran), SentTo(s, room);
    forall k | 0 <= k < |shown| ensures k < |sent| && shown[k] == MaskedLines(sent, mask)[k] {
      ShownAt(s, room, mask, k);
    }
    if |shown| > 0 { ShownAt(s, room, mask, |shown| - 1); }
    assert shown == MaskedLines(sent[..|shown|], mask);
  }

  lemma OpenedIsLossless(s: System, room: int, limit: nat, mask: string -> string)
    requires ChatInv(s, room, mask) && room !in s.rooms
    ensures Lossless(ChatStep(s, Open(room), limit, mask), room, mask)
  {
    StepInOrder(s, Open(room), room, limit, mask);
    OpenedIsUnused(s, room, limit, mask);
    L.UnusedIsGood(PoolOf(ChatStep(s, Open(room), limit, mask), room), Masker(mask));
  }

  /** The history is the last 50 of the first lines that the room's filter was given, without a gap, each masked. */
  ghost predicate HistoryWhole(s: System, room: int, mask: string -> string)
    requires room in s.rooms
  {
    exists n: nat :: n <= |SentTo(s, room)|
                  && LastFifty(s.rooms[room].history, MaskedLines(SentTo(s, room)[..n], mask))
  }

  lemma LosslessIsWhole(s: System, room: int, mask: string -> string)
    requires Lossless(s, room, mask)
    ensures HistoryWhole(s, room, mask)
  {
    var shown := Items(s.rooms[room].station.ran);
    ShownInSequence(s, room, mask);
    assert LastFifty(s.rooms[room].history, shown);
  }

  /** The server after `before`, on which room `room` has just been opened. */
  function Opened(before: seq<ChatEvent>, room: int, limit: nat, mask: string -> string): System {
    ChatStep(ChatRun(IDLE, before, limit, mask), Open(room), limit, mask)
  }

  /** If no queue is full on the way of a room's lines and no task of its filter panics, no line is missing. */
  lemma HistoryHasNoGaps(before: seq<ChatEvent>, es: seq<ChatEvent>, room: int, limit: nat, mask: string -> string)
    requires room !in ChatRun(IDLE, before, limit, mask).rooms
    requires room in Opened(before, room, limit, mask).rooms
    requires SparesRun(Opened(before, room, limit, mask), es, room, limit, mask)
    ensures var s := ChatRun(Opened(before, room, limit, mask), es, limit, mask);
      room in s.rooms && HistoryWhole(s, room, mask)
  {
    RunInOrder(IDLE, before, room, limit, mask);
    OpenedIsLossless(ChatRun(IDLE, before, limit, mask), room, limit, mask);
    RunLossless(Opened(before, room, limit, mask), es, room, limit, mask);
    LosslessIsWhole(ChatRun(Opened(before, room, limit, mask), es, limit, mask), room, mask);
  }

  // ----- new rooms

  /** A new room has no messages and a filter with 300 empty queues for 10000 tasks each. */
  lemma OpenLaw(s: System, room: int, limit: nat, mask: string -> string)
    requires room !in s.rooms
    ensures var t := ChatStep(s, Open(room), limit, mask);
      && t.calls == s.calls && t.said == s.said && t.rooms == s.rooms[room := t.rooms[room]]
      && t.rooms[room].history == [] && SentTo(t, room) == [] && t.rooms[room].station.busy == map[]
      && var p := t.rooms[room].station.pool;
         |p.queues| == 300 && p.cap == 10000 && forall i :: 0 <= i < 300 ==> p.queues[i] == []
  {}
}
