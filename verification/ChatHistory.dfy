/**
 What a room's history holds after any run: the last 50 of an in-order, repeat-free selection of the lines
 that connections posted, each one masked.
 */
module ChatHistory {
  import opened Bytes
  import opened PoolRuns
  import opened ChatPipeline
  import W = WordScan
  import opened Common

  function LastOf(lines: seq<Line>): seq<Line> {
    if |lines| <= HISTORY then lines else lines[|lines| - HISTORY..]
  }

  /** The history is the last 50 lines shown, and the filter uses one key. */
  ghost predicate RoomKept(r: Room) {
    && r.history == LastOf(Items(r.station.ran))
    && forall k :: 0 <= k < |r.station.sent| ==> r.station.sent[k].key == FILTER_KEY && r.station.sent[k].back
  }

  lemma ShowKeepsLast(r: Room, job: Job<Line>)
    requires RoomKept(r)
    ensures RoomKept(ShowLine(r, job))
  {
    assert Items(r.station.ran + [job]) == Items(r.station.ran) + [job.item];
  }

  lemma StepKeepsRoom(s: System, e: ChatEvent, room: int, limit: nat, mask: string -> string)
    requires room in s.rooms && RoomKept(s.rooms[room])
    ensures RoomKept(ChatStep(s, e, limit, mask).rooms[room])
  {
    if e.Turn? && s.calls != [] && s.calls[0].Callback? && s.calls[0].room == room {
      ShowKeepsLast(s.rooms[room], s.calls[0].job);
    }
  }

  lemma KeptIsAnswered(s: System, room: int, mask: string -> string)
    requires room in s.rooms && RoomKept(s.rooms[room]) && Inv(PoolOf(s, room), Masker(mask))
    ensures Answered(s.rooms[room].station)
  {
    var st := s.rooms[room].station;
    forall i | i in st.busy ensures st.busy[i].back {
      assert QueueInOrder(st.done, Pending(st, i), st.sent, i) && st.busy[i] in Pending(st, i);
    }
  }

  ghost predicate ChatInv(s: System, room: int, mask: string -> string) {
    && KnownRooms(s) && AsSaid(Submitted(s, room), s.said)
    && (room in s.rooms ==> RoomKept(s.rooms[room]) && Inv(PoolOf(s, room), Masker(mask)))
  }

  /** Whoever moves next, the lines of a room stay in order and its history stays the last 50 shown. */
  lemma StepInOrder(s: System, e: ChatEvent, room: int, limit: nat, mask: string -> string)
    requires ChatInv(s, room, mask)
    ensures ChatInv(ChatStep(s, e, limit, mask), room, mask)
  {
    var t := ChatStep(s, e, limit, mask);
    StepKnowsRooms(s, e, limit, mask);
    StepAsSaid(s, e, room, limit, mask);
    if room in s.rooms {
      StepKeepsRoom(s, e, room, limit, mask);
      KeptIsAnswered(s, room, mask);
      ChatStepIsPoolRun(s, e, room, limit, mask);
      RunKeepsInv(PoolOf(s, room), PoolEvents(s, e, room), limit, Masker(mask));
    } else if room in t.rooms {
      OpenedIsUnused(s, room, limit, mask);
      UnusedInv(PoolOf(t, room), Masker(mask));
    }
  }

  lemma {:induction false} RunInOrder(s: System, es: seq<ChatEvent>, room: int, limit: nat, mask: string -> string)
    requires ChatInv(s, room, mask)
    ensures ChatInv(ChatRun(s, es, limit, mask), room, mask)
    decreases |es|
  {
    if es != [] {
      StepInOrder(s, es[0], room, limit, mask);
      RunInOrder(ChatStep(s, es[0], limit, mask), es[1..], room, limit, mask);
    }
  }

  /** `lines` are masked copies of the lines of `said` at the rising places `at`. */
  ghost predicate MaskedSelection(lines: seq<Line>, said: seq<Line>, at: seq<nat>, mask: string -> string) {
    && |at| == |lines|
    && (forall a, b :: 0 <= a < b < |at| ==> at[a] < at[b])
    && (forall a :: 0 <= a < |at| ==> at[a] < |said| && lines[a] == said[at[a]].(text := mask(said[at[a]].text)))
  }

  lemma {:induction false} OneKey(jobs: seq<Job<Line>>)
    requires forall k :: 0 <= k < |jobs| ==> jobs[k].key == FILTER_KEY
    ensures OfKey(jobs, FILTER_KEY) == jobs
  {
    if jobs != [] {
      OneKey(jobs[..|jobs| - 1]);
      assert jobs == jobs[..|jobs| - 1] + [jobs[|jobs| - 1]];
    }
  }

  lemma RanUsesKey(s: System, room: int, mask: string -> string)
    requires ChatInv(s, room, mask) && room in s.rooms
    ensures OfKey(s.rooms[room].station.ran, FILTER_KEY) == s.rooms[room].station.ran
  {
    var ran := s.rooms[room].station.ran;
    DonePrefix(PoolOf(s, room), Masker(mask));
    forall k | 0 <= k < |ran| ensures ran[k].key == FILTER_KEY { assert ran[k] in ran; }
    OneKey(ran);
  }

  /** A selection of submissions, which were as said, is a selection of what was said. */
  lemma SelectionOfSaid(ran: seq<Job<Line>>, sent: seq<Job<Line>>, at: seq<nat>, said: seq<Line>,
                        mask: string -> string)
    requires Selection(ran, sent, at, Masker(mask)) && AsSaid(Items(sent), said)
    ensures exists places :: MaskedSelection(Items(ran), said, places, mask)
  {
    var places: seq<nat> := seq(|at|, a requires 0 <= a < |at| => Items(sent)[at[a]].ticket);
    assert MaskedSelection(Items(ran), said, places, mask);
  }

  /** The order of callbacks of the pool, for a room whose filter uses one key. */
  lemma ShownIsSelection(s: System, room: int, mask: string -> string)
    requires ChatInv(s, room, mask) && room in s.rooms
    ensures exists at :: MaskedSelection(Items(s.rooms[room].station.ran), s.said, at, mask)
  {
    var st := s.rooms[room].station;
    RanUsesKey(s, room, mask);
    DonePrefix(PoolOf(s, room), Masker(mask));
    var at := KeySelection(st.ran, st.sent, |st.pool.queues|, FILTER_KEY, Masker(mask));
    var lines := Items(st.sent);
    assert forall k :: 0 <= k < |lines| ==> lines[k] == Submitted(s, room)[k];
    SelectionOfSaid(st.ran, st.sent, at, s.said, mask);
  }

  /** The lines of the chat requests in `es`, numbered from `from` on. */
  function LinesOf(es: seq<ChatEvent>, from: nat): seq<Line> {
    if es == [] then []
    else if es[0].Say? then [Line(from, es[0].fd, es[0].text)] + LinesOf(es[1..], from + 1)
    else LinesOf(es[1..], from)
  }

  /** What was said is what connections posted, sender, text and order. */
  lemma {:induction false} SaidIsPosted(s: System, es: seq<ChatEvent>, limit: nat, mask: string -> string)
    ensures ChatRun(s, es, limit, mask).said == s.said + LinesOf(es, |s.said|)
    decreases |es|
  {
    if es != [] {
      var t := ChatStep(s, es[0], limit, mask);
      SaidIsPosted(t, es[1..], limit, mask);
      assert es[0].Say? ==>
          (s.said + [Line(|s.said|, es[0].fd, es[0].text)]) + LinesOf(es[1..], |t.said|)
          == s.said + LinesOf(es, |s.said|);
    }
  }

  ghost predicate LastFifty(history: seq<Line>, shown: seq<Line>) {
    history == if |shown| <= 50 then shown else shown[|shown| - 50..]
  }

  /**
   After any interleaving of connections, loop and workers, with drops at every queue, a room's history
   is the last 50 of an in-order, repeat-free selection of the lines posted to the server, each one masked.
   */
  lemma HistoryIsSelection(es: seq<ChatEvent>, room: int, limit: nat, mask: string -> string)
    requires room in ChatRun(IDLE, es, limit, mask).rooms
    ensures exists shown, at :: MaskedSelection(shown, LinesOf(es, 0), at, mask)
                             && LastFifty(ChatRun(IDLE, es, limit, mask).rooms[room].history, shown)
  {
    RunInOrder(IDLE, es, room, limit, mask);
    var s := ChatRun(IDLE, es, limit, mask);
    SaidIsPosted(IDLE, es, limit, mask);
    assert s.said == LinesOf(es, 0);
    ShownIsSelection(s, room, mask);
    var shown := Items(s.rooms[room].station.ran);
    var at :| MaskedSelection(shown, s.said, at, mask);
    assert LastFifty(s.rooms[room].history, shown);
  }

  /** Every message of a history is one of the posted lines, masked. */
  lemma HistoryIsMasked(es: seq<ChatEvent>, room: int, limit: nat, mask: string -> string, k: nat)
    requires room in ChatRun(IDLE, es, limit, mask).rooms
    requires k < |ChatRun(IDLE, es, limit, mask).rooms[room].history|
    ensures var history, lines := ChatRun(IDLE, es, limit, mask).rooms[room].history, LinesOf(es, 0);
      exists j: nat :: j < |lines| && history[k] == lines[j].(text := mask(lines[j].text))
  {
    HistoryIsSelection(es, room, limit, mask);
    var history, lines := ChatRun(IDLE, es, limit, mask).rooms[room].history, LinesOf(es, 0);
    var shown, at :| MaskedSelection(shown, lines, at, mask) && LastFifty(history, shown);
    var j := at[if |shown| <= 50 then k else |shown| - 50 + k];
    assert history[k] == lines[j].(text := mask(lines[j].text));
  }

  /**
   With the dictionary scan as the mask, no run ever puts a star-free word of two or more runes into a
   room's history.
   */
  lemma HistoryIsClean(es: seq<ChatEvent>, room: int, limit: nat, words: set<string>, mask: string -> string,
                       k: nat, w: string, i: nat)
    requires forall t {:trigger mask(t)} :: mask(t) == W.Masked(words, t)
    requires w in words && |w| >= 2 && W.MASK !in w
    requires room in ChatRun(IDLE, es, limit, mask).rooms
    requires k < |ChatRun(IDLE, es, limit, mask).rooms[room].history|
    ensures !W.OccursAt(w, ChatRun(IDLE, es, limit, mask).rooms[room].history[k].text, i)
  {
    HistoryIsMasked(es, room, limit, mask, k);
    var history, lines := ChatRun(IDLE, es, limit, mask).rooms[room].history, LinesOf(es, 0);
    var j: nat :| j < |lines| && history[k] == lines[j].(text := mask(lines[j].text));
    W.OutputClean(words, lines[j].text, i, w);
  }
}
