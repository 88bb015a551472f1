/**
 A task pool at work.  Submitters, the workers (one for each queue) and the server's one loop take turns
 in any order; a full queue of the pool loses the task, a full call queue loses the callback.
 */
module PoolRuns {
  import opened Bytes
  import opened TaskPool

  /**
   A task; `ticket` is its place among all submissions, `slot` its queue, `back` says that it has a
   callback, and running it works on `item`.
   */
  datatype Job<+T> = Job(ticket: nat, key: seq<byte>, slot: nat, item: T, back: bool)

  /** An entry of the call queue: a callback of this pool, or anybody else's call. */
  datatype Call<+T> = Done(job: Job<T>) | Foreign

  /**
   `busy` is what the workers hold; `sent`, `done` and `ran` only record submissions, executed tasks and
   executed callbacks.
   */
  datatype Station<+T> = Station(
    pool: Pool<Job<T>>,
    busy: map<nat, Job<T>>,
    sent: seq<Job<T>>,
    done: seq<Job<T>>,
    ran: seq<Job<T>>
  )

  datatype State<+T> = State(st: Station<T>, calls: seq<Call<T>>)

  datatype Event<+T> =
    | Submit(key: seq<byte>, item: T, back: bool)      // AddTask, with or without a key
    | SubmitFixed(idx: int, item: T, back: bool)       // AddFixedTask
    | Take(index: nat)                                 // the idle worker takes the oldest task of its queue
    | Finish(index: nat)                               // the task is done; its callback, if any, is posted
    | Panic(index: nat)                                // the task panics and is recovered
    | PostForeign                                      // somebody else posts a call
    | Exec                                             // the loop runs the oldest call

  function NewStation<T>(taskNum: int, chanNum: int): Station<T> {
    Station(NewPool(taskNum, chanNum), map[], [], [], [])
  }

  function Post<C>(calls: seq<C>, call: C, limit: nat): seq<C> {
    if |calls| < limit then calls + [call] else calls
  }

  function Place<T>(st: Station<T>, key: seq<byte>, slot: nat, item: T, back: bool): Station<T>
    requires slot < |st.pool.queues|
  {
    var job := Job(|st.sent|, key, slot, item, back);
    st.(pool := Send(st.pool, slot, job), sent := st.sent + [job])
  }

  /** A keyed task goes to the queue of its key. */
  function SubmitKeyed<T>(st: Station<T>, key: seq<byte>, item: T, back: bool): Station<T> {
    if st.pool.queues == [] then st else Place(st, key, KeyIndex(key, |st.pool.queues|), item, back)
  }

  /** A task without a key goes to the scanned queue, and the cursor moves past it. */
  function SubmitKeyless<T>(st: Station<T>, item: T, back: bool): Station<T> {
    if st.pool.cur >= |st.pool.queues| then st
    else
      var i := ScanIndex(st.pool);
      var t := Place(st, [], i, item, back);
      t.(pool := t.pool.(cur := After(i, |st.pool.queues|)))
  }

  /** `AddFixedTask`: an index out of range moves on to the next queue. */
  function SubmitTo<T>(st: Station<T>, index: int, item: T, back: bool): Station<T> {
    var n := |st.pool.queues|;
    if 0 <= index < n then Place(st, [], index, item, back)
    else if st.pool.rnd >= n then st
    else
      var i := After(st.pool.rnd, n);
      var t := Place(st, [], i, item, back);
      t.(pool := t.pool.(rnd := i))
  }

  function TakeOne<T>(st: Station<T>, i: nat): Station<T> {
    if i < |st.pool.queues| && i !in st.busy && st.pool.queues[i] != []
    then st.(busy := st.busy[i := st.pool.queues[i][0]], pool := Receive(st.pool, i))
    else st
  }

  function Idle<T>(st: Station<T>, i: nat): Station<T> {
    st.(busy := st.busy - {i})
  }

  /** The worker has executed `job`. */
  function Ended<T>(st: Station<T>, i: nat, job: Job<T>): Station<T> {
    Idle(st, i).(done := st.done + [job])
  }

  function Ran<T>(st: Station<T>, job: Job<T>): Station<T> {
    st.(ran := st.ran + [job])
  }

  function Worked<T>(job: Job<T>, work: T -> T): Job<T> {
    job.(item := work(job.item))
  }

  /** Events that are not possible in a state change nothing. */
  function Step<T>(s: State<T>, e: Event<T>, limit: nat, work: T -> T): State<T> {
    match e
    case Submit(key, item, back) =>
      s.(st := if key == [] then SubmitKeyless(s.st, item, back) else SubmitKeyed(s.st, key, item, back))
    case SubmitFixed(i, item, back) => s.(st := SubmitTo(s.st, i, item, back))
    case Take(i) => s.(st := TakeOne(s.st, i))
    case Finish(i) =>
      if i in s.st.busy then
        var job := Worked(s.st.busy[i], work);
        State(Ended(s.st, i, job), if job.back then Post(s.calls, Done(job), limit) else s.calls)
      else s
    case Panic(i) => s.(st := Idle(s.st, i))
    case PostForeign => s.(calls := Post(s.calls, Foreign, limit))
    case Exec =>
      if s.calls == [] then s
      else State(if s.calls[0].Done? then Ran(s.st, s.calls[0].job) else s.st, s.calls[1..])
  }

  function Run<T>(s: State<T>, es: seq<Event<T>>, limit: nat, work: T -> T): State<T>
    decreases |es|
  {
    if es == [] then s else Run(Step(s, es[0], limit, work), es[1..], limit, work)
  }

  // ----- what is on its way

  function Callbacks<T>(calls: seq<Call<T>>): seq<Job<T>> {
    if calls == [] then [] else (if calls[0].Done? then [calls[0].job] else []) + Callbacks(calls[1..])
  }

  /** The jobs that were worked on, in the order in which their callbacks run. */
  function Finished<T>(s: State<T>): seq<Job<T>> {
    s.st.ran + Callbacks(s.calls)
  }

  /** The jobs of one queue that were not worked on, oldest first. */
  function Pending<T>(st: Station<T>, i: nat): seq<Job<T>> {
    (if i in st.busy then [st.busy[i]] else []) + if i < |st.pool.queues| then st.pool.queues[i] else []
  }

  lemma {:induction false} CallbacksPosted<T>(calls: seq<Call<T>>, call: Call<T>)
    ensures Callbacks(calls + [call]) == Callbacks(calls) + if call.Done? then [call.job] else []
  {
    if calls != [] {
      assert (calls + [call])[1..] == calls[1..] + [call];
      CallbacksPosted(calls[1..], call);
    }
  }

  // ----- the invariant

  ghost predicate Rising<T>(jobs: seq<Job<T>>) {
    forall a, b :: 0 <= a < b < |jobs| ==> jobs[a].ticket < jobs[b].ticket
  }

  /** Jobs of the same queue are in the order of their tickets. */
  ghost predicate RisingBySlot<T>(jobs: seq<Job<T>>) {
    forall a, b :: 0 <= a < b < |jobs| && jobs[a].slot == jobs[b].slot ==> jobs[a].ticket < jobs[b].ticket
  }

  ghost predicate Behind<T>(done: seq<Job<T>>, pending: seq<Job<T>>, i: nat) {
    forall d, p :: d in done && p in pending && d.slot == i ==> d.ticket < p.ticket
  }

  /** Each job is a submission, before or after the work on it. */
  ghost predicate Waiting<T>(pending: seq<Job<T>>, sent: seq<Job<T>>, i: nat) {
    forall p :: p in pending ==> p.ticket < |sent| && p == sent[p.ticket] && p.slot == i
  }

  ghost predicate WorkedOn<T>(done: seq<Job<T>>, sent: seq<Job<T>>, work: T -> T) {
    forall d :: d in done ==> d.ticket < |sent| && d == Worked(sent[d.ticket], work)
  }

  ghost predicate DoneInOrder<T>(done: seq<Job<T>>, sent: seq<Job<T>>, work: T -> T) {
    RisingBySlot(done) && WorkedOn(done, sent, work)
  }

  ghost predicate QueueInOrder<T>(done: seq<Job<T>>, pending: seq<Job<T>>, sent: seq<Job<T>>, i: nat) {
    Rising(pending) && Waiting(pending, sent, i) && Behind(done, pending, i)
  }

  /** Tickets count submissions, and keyed jobs are in the queue of their key. */
  ghost predicate Keyed<T>(sent: seq<Job<T>>, n: nat) {
    && n > 0
    && forall k :: 0 <= k < |sent| ==>
         && sent[k].ticket == k && sent[k].slot < n
         && (sent[k].key != [] ==> sent[k].slot == KeyIndex(sent[k].key, n))
  }

  /** The jobs `done` and what is pending behind them are in order in every queue. */
  ghost predicate InLine<T>(done: seq<Job<T>>, st: Station<T>, work: T -> T) {
    && DoneInOrder(done, st.sent, work)
    && forall i: nat :: QueueInOrder(done, Pending(st, i), st.sent, i)
  }

  ghost predicate Inv<T>(s: State<T>, work: T -> T) {
    && Keyed(s.st.sent, |s.st.pool.queues|)
    && InLine(Finished(s), s.st, work) && InLine(s.st.done, s.st, work)
  }

  /** A sound pool to which nothing was submitted yet; others may already have posted calls. */
  ghost predicate Unused<T>(s: State<T>) {
    && Sound(s.st.pool) && (forall i :: 0 <= i < |s.st.pool.queues| ==> s.st.pool.queues[i] == [])
    && s.st.busy == map[] && s.st.sent == [] && s.st.done == [] && s.st.ran == []
    && forall k :: 0 <= k < |s.calls| ==> s.calls[k].Foreign?
  }

  lemma {:induction false} NoCallbacks<T>(calls: seq<Call<T>>)
    requires forall k :: 0 <= k < |calls| ==> calls[k].Foreign?
    ensures Callbacks(calls) == []
  {
    if calls != [] { NoCallbacks(calls[1..]); }
  }

  lemma UnusedInv<T>(s: State<T>, work: T -> T)
    requires Unused(s)
    ensures Inv(s, work)
  {
    NoCallbacks(s.calls);
    forall i: nat ensures QueueInOrder([], Pending(s.st, i), s.st.sent, i) {
      assert Pending(s.st, i) == [];
    }
  }

  // ----- the moves of one queue

  /** A submission reaches the queue of its slot or is lost; other queues only see the record grow. */
  lemma JobSent<T>(done: seq<Job<T>>, pending: seq<Job<T>>, sent: seq<Job<T>>, job: Job<T>, i: nat, work: T -> T)
    requires DoneInOrder(done, sent, work) && QueueInOrder(done, pending, sent, i) && job.ticket == |sent|
    ensures DoneInOrder(done, sent + [job], work) && QueueInOrder(done, pending, sent + [job], i)
    ensures job.slot == i ==> QueueInOrder(done, pending + [job], sent + [job], i)
  {
    forall k | 0 <= k < |pending| ensures pending[k].ticket < |sent| {
      assert pending[k] in pending;
    }
  }

  lemma JobDropped<T>(done: seq<Job<T>>, pending: seq<Job<T>>, sent: seq<Job<T>>, i: nat)
    requires QueueInOrder(done, pending, sent, i) && pending != []
    ensures QueueInOrder(done, pending[1..], sent, i)
  {
    assert forall p :: p in pending[1..] ==> p in pending;
  }

  lemma JobDone<T>(done: seq<Job<T>>, pending: seq<Job<T>>, sent: seq<Job<T>>, i: nat, work: T -> T)
    requires DoneInOrder(done, sent, work) && QueueInOrder(done, pending, sent, i) && pending != []
    ensures var now := done + [Worked(pending[0], work)];
      && DoneInOrder(now, sent, work) && QueueInOrder(now, pending[1..], sent, i)
  {
    var x := pending[0];
    var now := done + [Worked(x, work)];
    assert x in pending;
    forall a, b | 0 <= a < b < |now| && now[a].slot == now[b].slot ensures now[a].ticket < now[b].ticket {
      if b == |done| { assert now[a] in done; }
    }
    forall p | p in pending[1..] ensures p in pending && x.ticket < p.ticket {
      var k :| 0 <= k < |pending[1..]| && pending[1..][k] == p;
      assert pending[k + 1] == p;
    }
  }

  /** A finished job of one queue is no concern of another. */
  lemma OtherDone<T>(done: seq<Job<T>>, d: Job<T>, pending: seq<Job<T>>, sent: seq<Job<T>>, i: nat)
    requires QueueInOrder(done, pending, sent, i) && d.slot != i
    ensures QueueInOrder(done + [d], pending, sent, i)
  {}

  // ----- every step keeps the invariant

  lemma PlaceInLine<T>(done: seq<Job<T>>, st: Station<T>, job: Job<T>, work: T -> T)
    requires InLine(done, st, work) && job.ticket == |st.sent| && job.slot < |st.pool.queues|
    ensures InLine(done, st.(pool := Send(st.pool, job.slot, job), sent := st.sent + [job]), work)
  {
    var t := st.(pool := Send(st.pool, job.slot, job), sent := st.sent + [job]);
    JobSent(done, Pending(st, 0), st.sent, job, 0, work);
    forall i: nat ensures QueueInOrder(done, Pending(t, i), t.sent, i) {
      JobSent(done, Pending(st, i), st.sent, job, i, work);
      PendingSent(st, job, i);
    }
  }

  lemma PlaceInv<T>(s: State<T>, key: seq<byte>, slot: nat, item: T, back: bool, work: T -> T)
    requires Inv(s, work) && slot < |s.st.pool.queues|
    requires key != [] ==> slot == KeyIndex(key, |s.st.pool.queues|)
    ensures Inv(s.(st := Place(s.st, key, slot, item, back)), work)
  {
    var job := Job(|s.st.sent|, key, slot, item, back);
    PlaceInLine(Finished(s), s.st, job, work);
    PlaceInLine(s.st.done, s.st, job, work);
  }

  /** Neither cursor of the pool matters for the order. */
  lemma CursorInv<T>(s: State<T>, cur: nat, rnd: nat, work: T -> T)
    requires Inv(s, work)
    ensures Inv(s.(st := s.st.(pool := s.st.pool.(cur := cur, rnd := rnd))), work)
  {
    SameLine(s, s.(st := s.st.(pool := s.st.pool.(cur := cur, rnd := rnd))), work);
  }

  lemma PendingSent<T>(st: Station<T>, job: Job<T>, i: nat)
    requires job.slot < |st.pool.queues|
    ensures var now := Pending(st.(pool := Send(st.pool, job.slot, job)), i);
      now == Pending(st, i) || (i == job.slot && now == Pending(st, i) + [job])
  {
    if i == job.slot && Free(st.pool, i) {
      var held := if i in st.busy then [st.busy[i]] else [];
      assert held + (st.pool.queues[i] + [job]) == (held + st.pool.queues[i]) + [job];
    }
  }

  lemma TakeInv<T>(s: State<T>, k: nat, work: T -> T)
    requires Inv(s, work)
    ensures Inv(s.(st := TakeOne(s.st, k)), work)
  {
    var t := TakeOne(s.st, k);
    forall i: nat ensures Pending(t, i) == Pending(s.st, i) {
      if i == k && t != s.st {
        var q := s.st.pool.queues[i];
        assert [] + q == [q[0]] + q[1..];
      }
    }
  }

  lemma IdlePending<T>(st: Station<T>, k: nat, i: nat)
    ensures Pending(Idle(st, k), i) == if i == k && i in st.busy then Pending(st, i)[1..] else Pending(st, i)
    ensures i in st.busy ==> Pending(st, i) != [] && Pending(st, i)[0] == st.busy[i]
  {}

  /** The worker lets go of its task without a trace in `done`. */
  lemma IdleInLine<T>(done: seq<Job<T>>, st: Station<T>, k: nat, work: T -> T)
    requires InLine(done, st, work)
    ensures InLine(done, Idle(st, k), work)
  {
    var t := Idle(st, k);
    forall i: nat ensures QueueInOrder(done, Pending(t, i), st.sent, i) {
      assert QueueInOrder(done, Pending(st, i), st.sent, i);
      IdlePending(st, k, i);
      if Pending(t, i) != Pending(st, i) {
        JobDropped(done, Pending(st, i), st.sent, i);
      }
    }
  }

  /** The worker has executed its task, and `done` grows by it. */
  lemma EndInLine<T>(done: seq<Job<T>>, st: Station<T>, k: nat, work: T -> T)
    requires InLine(done, st, work) && k in st.busy
    ensures InLine(done + [Worked(st.busy[k], work)], Idle(st, k), work)
  {
    var x := st.busy[k];
    var now, t := done + [Worked(x, work)], Idle(st, k);
    IdlePending(st, k, k);
    assert QueueInOrder(done, Pending(st, k), st.sent, k);
    assert x in Pending(st, k);
    JobDone(done, Pending(st, k), st.sent, k, work);
    forall i: nat ensures QueueInOrder(now, Pending(t, i), st.sent, i) {
      IdlePending(st, k, i);
      if i != k {
        OtherDone(done, Worked(x, work), Pending(st, i), st.sent, i);
      }
    }
  }

  lemma FinishInv<T>(s: State<T>, k: nat, limit: nat, work: T -> T)
    requires Inv(s, work) && k in s.st.busy
    ensures Inv(Step(s, Finish(k), limit, work), work)
  {
    var t, job := Step(s, Finish(k), limit, work), Worked(s.st.busy[k], work);
    CallbacksPosted(s.calls, Done(job));
    EndInLine(s.st.done, s.st, k, work);
    if job.back && |s.calls| < limit {
      EndInLine(Finished(s), s.st, k, work);
      assert Finished(t) == Finished(s) + [job];
    } else {
      IdleInLine(Finished(s), s.st, k, work);
    }
    assert forall i: nat :: Pending(t.st, i) == Pending(Idle(s.st, k), i);
  }

  lemma PanicInv<T>(s: State<T>, k: nat, work: T -> T)
    requires Inv(s, work)
    ensures Inv(s.(st := Idle(s.st, k)), work)
  {
    IdleInLine(Finished(s), s.st, k, work);
    IdleInLine(s.st.done, s.st, k, work);
  }

  /** The invariant looks at the calls only through the callbacks on their way. */
  lemma SameLine<T>(s: State<T>, t: State<T>, work: T -> T)
    requires Inv(s, work) && Finished(t) == Finished(s) && t.st.done == s.st.done
    requires t.st.pool.queues == s.st.pool.queues && t.st.busy == s.st.busy && t.st.sent == s.st.sent
    ensures Inv(t, work)
  {
    assert forall i: nat :: Pending(t.st, i) == Pending(s.st, i);
  }

  lemma ForeignInv<T>(s: State<T>, limit: nat, work: T -> T)
    requires Inv(s, work)
    ensures Inv(s.(calls := Post(s.calls, Foreign, limit)), work)
  {
    CallbacksPosted(s.calls, Foreign);
    SameLine(s, s.(calls := Post(s.calls, Foreign, limit)), work);
  }

  lemma ExecInv<T>(s: State<T>, limit: nat, work: T -> T)
    requires Inv(s, work)
    ensures Inv(Step(s, Exec, limit, work), work)
  {
    var t := Step(s, Exec, limit, work);
    if s.calls != [] && s.calls[0].Done? {
      var later := Callbacks(s.calls[1..]);
      assert s.st.ran + ([s.calls[0].job] + later) == (s.st.ran + [s.calls[0].job]) + later;
    }
    SameLine(s, t, work);
  }

  lemma SubmitInv<T>(s: State<T>, key: seq<byte>, item: T, back: bool, limit: nat, work: T -> T)
    requires Inv(s, work)
    ensures Inv(Step(s, Submit(key, item, back), limit, work), work)
  {
    var n := |s.st.pool.queues|;
    if key != [] {
      PlaceInv(s, key, KeyIndex(key, n), item, back, work);
    } else if s.st.pool.cur < n {
      var i := ScanIndex(s.st.pool);
      var t := s.(st := Place(s.st, [], i, item, back));
      PlaceInv(s, [], i, item, back, work);
      CursorInv(t, After(i, n), t.st.pool.rnd, work);
    }
  }

  lemma SubmitFixedInv<T>(s: State<T>, idx: int, item: T, back: bool, limit: nat, work: T -> T)
    requires Inv(s, work)
    ensures Inv(Step(s, SubmitFixed(idx, item, back), limit, work), work)
  {
    var n := |s.st.pool.queues|;
    if 0 <= idx < n {
      PlaceInv(s, [], idx, item, back, work);
    } else if s.st.pool.rnd < n {
      var i := After(s.st.pool.rnd, n);
      var t := s.(st := Place(s.st, [], i, item, back));
      PlaceInv(s, [], i, item, back, work);
      CursorInv(t, t.st.pool.cur, i, work);
    }
  }

  /** Whoever moves next, every queue stays in order. */
  lemma StepKeepsInv<T>(s: State<T>, e: Event<T>, limit: nat, work: T -> T)
    requires Inv(s, work)
    ensures Inv(Step(s, e, limit, work), work)
  {
    match e
    case Submit(key, item, back) => SubmitInv(s, key, item, back, limit, work);
    case SubmitFixed(i, item, back) => SubmitFixedInv(s, i, item, back, limit, work);
    case Take(i) => TakeInv(s, i, work);
    case Finish(i) => if i in s.st.busy { FinishInv(s, i, limit, work); }
    case Panic(i) => PanicInv(s, i, work);
    case PostForeign => ForeignInv(s, limit, work);
    case Exec => ExecInv(s, limit, work);
  }

  lemma {:induction false} RunKeepsInv<T>(s: State<T>, es: seq<Event<T>>, limit: nat, work: T -> T)
    requires Inv(s, work)
    ensures Inv(Run(s, es, limit, work), work)
    decreases |es|
  {
    if es != [] {
      StepKeepsInv(s, es[0], limit, work);
      RunKeepsInv(Step(s, es[0], limit, work), es[1..], limit, work);
    }
  }

  // ----- the order of callbacks

  function OfKey<T>(jobs: seq<Job<T>>, key: seq<byte>): seq<Job<T>> {
    if jobs == [] then []
    else
      var n := |jobs| - 1;
      OfKey(jobs[..n], key) + if jobs[n].key == key then [jobs[n]] else []
  }

  /** `jobs` are the submissions at the rising places `at`, each worked on exactly once. */
  ghost predicate Selection<T>(jobs: seq<Job<T>>, sent: seq<Job<T>>, at: seq<nat>, work: T -> T) {
    && |at| == |jobs|
    && (forall a, b :: 0 <= a < b < |at| ==> at[a] < at[b])
    && (forall a :: 0 <= a < |at| ==> at[a] < |sent| && jobs[a] == Worked(sent[at[a]], work))
  }

  lemma {:induction false} OfKeyMembers<T>(jobs: seq<Job<T>>, key: seq<byte>, a: nat)
    requires a < |OfKey(jobs, key)|
    ensures OfKey(jobs, key)[a] in jobs && OfKey(jobs, key)[a].key == key
  {
    var n := |jobs| - 1;
    if a < |OfKey(jobs[..n], key)| {
      OfKeyMembers(jobs[..n], key, a);
      assert OfKey(jobs, key)[a] == OfKey(jobs[..n], key)[a];
    }
  }

  /** All jobs of a key were in one queue. */
  ghost predicate OneSlot<T>(jobs: seq<Job<T>>, key: seq<byte>, slot: nat) {
    forall job :: job in jobs && job.key == key ==> job.slot == slot
  }

  lemma {:induction false} OfKeyRising<T>(jobs: seq<Job<T>>, key: seq<byte>, slot: nat)
    requires RisingBySlot(jobs) && OneSlot(jobs, key, slot)
    ensures Rising(OfKey(jobs, key))
  {
    if jobs != [] {
      var n := |jobs| - 1;
      var front, last := jobs[..n], jobs[n];
      assert forall job :: job in front ==> job in jobs;
      OfKeyRising(front, key, slot);
      if last.key == key {
        assert last in jobs;
        LastIsLatest(jobs, key, slot);
        var before := OfKey(front, key);
        forall a | 0 <= a < |before| ensures before[a].ticket < last.ticket { OfKeyMembers(front, key, a); }
      }
    }
  }

  lemma LastIsLatest<T>(jobs: seq<Job<T>>, key: seq<byte>, slot: nat)
    requires RisingBySlot(jobs) && OneSlot(jobs, key, slot) && jobs != [] && jobs[|jobs| - 1].key == key
    ensures forall job :: job in jobs[..|jobs| - 1] && job.key == key ==> job.ticket < jobs[|jobs| - 1].ticket
  {
    var n := |jobs| - 1;
    assert jobs[n] in jobs;
    forall job | job in jobs[..n] && job.key == key ensures job.ticket < jobs[n].ticket {
      var k :| 0 <= k < n && jobs[..n][k] == job;
      assert jobs[k] == job && job in jobs;
    }
  }

  lemma DonePrefix<T>(s: State<T>, work: T -> T)
    requires Inv(s, work)
    ensures DoneInOrder(s.st.ran, s.st.sent, work)
  {
    var all := Finished(s);
    assert forall k :: 0 <= k < |s.st.ran| ==> s.st.ran[k] == all[k];
    assert forall d :: d in s.st.ran ==> d in all;
  }

  lemma RisingSelection<T>(jobs: seq<Job<T>>, sent: seq<Job<T>>, work: T -> T) returns (at: seq<nat>)
    requires Rising(jobs)
    requires forall a :: 0 <= a < |jobs| ==>
               jobs[a].ticket < |sent| && jobs[a] == Worked(sent[jobs[a].ticket], work)
    ensures Selection(jobs, sent, at, work)
  {
    at := seq(|jobs|, a requires 0 <= a < |jobs| => jobs[a].ticket);
  }

  /** The jobs of a key, out of jobs that are in order in every queue. */
  lemma KeySelection<T>(jobs: seq<Job<T>>, sent: seq<Job<T>>, n: nat, key: seq<byte>, work: T -> T)
    returns (at: seq<nat>)
    requires DoneInOrder(jobs, sent, work) && Keyed(sent, n) && key != []
    ensures Selection(OfKey(jobs, key), sent, at, work)
    ensures forall a :: 0 <= a < |at| ==> sent[at[a]].key == key
  {
    var slot := KeyIndex(key, n);
    var mine := OfKey(jobs, key);
    forall job | job in jobs && job.key == key ensures job.slot == slot {
      assert sent[job.ticket].key == key;
    }
    OfKeyRising(jobs, key, slot);
    forall a | 0 <= a < |mine| ensures mine[a] in jobs && mine[a].key == key {
      OfKeyMembers(jobs, key, a);
    }
    at := RisingSelection(mine, sent, work);
  }

  /** In-order, repeat-free: each of `jobs` is another, later submission under the key, worked on exactly once. */
  ghost predicate SelectionOfKey<T>(jobs: seq<Job<T>>, sent: seq<Job<T>>, key: seq<byte>, work: T -> T) {
    exists at :: Selection(jobs, sent, at, work) && forall a :: 0 <= a < |at| ==> sent[at[a]].key == key
  }

  /**
   However submitters, workers and loop take turns, the tasks executed and the callbacks run for one key are
   in-order, repeat-free selections of the tasks submitted under it; keys may share a queue.
   */
  lemma KeyOrder<T>(start: State<T>, es: seq<Event<T>>, limit: nat, work: T -> T, key: seq<byte>)
    requires Unused(start) && key != []
    ensures var st := Run(start, es, limit, work).st;
      SelectionOfKey(OfKey(st.done, key), st.sent, key, work) && SelectionOfKey(OfKey(st.ran, key), st.sent, key, work)
  {
    var s := Run(start, es, limit, work);
    UnusedInv(start, work);
    RunKeepsInv(start, es, limit, work);
    DonePrefix(s, work);
    var at := KeySelection(s.st.ran, s.st.sent, |s.st.pool.queues|, key, work);
    var at' := KeySelection(s.st.done, s.st.sent, |s.st.pool.queues|, key, work);
  }

  lemma RunCons<T>(s: State<T>, e: Event<T>, es: seq<Event<T>>, limit: nat, work: T -> T)
    ensures Run(s, [e] + es, limit, work) == Run(Step(s, e, limit, work), es, limit, work)
  {
    assert ([e] + es)[1..] == es;
  }

  // ----- when tasks without a key stay in order

  /** In every run the callbacks of tasks without a key run in the order of submission. */
  ghost predicate KeylessInOrder<T(!new)>(start: State<T>, limit: nat, work: T -> T) {
    forall es: seq<Event<T>> :: Rising(OfKey(Run(start, es, limit, work).st.ran, []))
  }

  /** No callback can ever be posted. */
  ghost predicate Silent<T>(s: State<T>) {
    s.st.ran == [] && forall k :: 0 <= k < |s.calls| ==> s.calls[k].Foreign?
  }

  lemma {:induction false} StaysSilent<T>(s: State<T>, es: seq<Event<T>>, work: T -> T)
    requires Silent(s)
    ensures Silent(Run(s, es, 0, work))
    decreases |es|
  {
    if es != [] {
      var t := Step(s, es[0], 0, work);
      assert t.calls == s.calls || t.calls == s.calls[1..];
      StaysSilent(t, es[1..], work);
    }
  }

  /** The loop can first run all calls of others. */
  function Execs<T>(n: nat): (es: seq<Event<T>>)
    ensures |es| == n
  {
    seq(n, _ => Exec)
  }

  lemma {:induction false} ForeignFirst<T>(s: State<T>, es: seq<Event<T>>, limit: nat, work: T -> T)
    requires forall k :: 0 <= k < |s.calls| ==> s.calls[k].Foreign?
    ensures Run(s, Execs(|s.calls|) + es, limit, work) == Run(State(s.st, []), es, limit, work)
    decreases |s.calls|
  {
    if s.calls == [] {
      assert Execs<T>(0) + es == es;
    } else {
      var t := State(s.st, s.calls[1..]);
      assert Execs<T>(|s.calls|) + es == [Exec] + (Execs(|t.calls|) + es);
      RunCons(s, Exec, Execs(|t.calls|) + es, limit, work);
      ForeignFirst(t, es, limit, work);
    }
  }

  /** Two tasks in two queues whose second worker is faster: its callback runs first. */
  lemma SecondWorkerFirst<T>(s: State<T>, i: nat, j: nat, a: Job<T>, b: Job<T>, limit: nat, work: T -> T)
    requires i < |s.st.pool.queues| && j < |s.st.pool.queues| && i != j
    requires s.st.pool.queues[i] == [a] && s.st.pool.queues[j] == [b] && a.back && b.back
    requires s.st.busy == map[] && s.calls == [] && limit > 0 && s.st.ran == []
    ensures Run(s, [Take(i), Take(j), Finish(j), Exec, Finish(i), Exec], limit, work).st.ran
            == [Worked(b, work), Worked(a, work)]
  {
    var s1 := Step(s, Take(i), limit, work);
    var s2 := Step(s1, Take(j), limit, work);
    assert s2.st.busy[i] == a && s2.st.busy[j] == b && s2.calls == [];
    var s3 := Step(s2, Finish(j), limit, work);
    assert s3.calls == [Done(Worked(b, work))];
    var s4 := Step(s3, Exec, limit, work);
    assert s4.calls == [] && s4.st.busy[i] == a;
    var s5 := Step(s4, Finish(i), limit, work);
    RunCons(s, Take(i), [Take(j), Finish(j), Exec, Finish(i), Exec], limit, work);
    RunCons(s1, Take(j), [Finish(j), Exec, Finish(i), Exec], limit, work);
    RunCons(s2, Finish(j), [Exec, Finish(i), Exec], limit, work);
    RunCons(s3, Exec, [Finish(i), Exec], limit, work);
    RunCons(s4, Finish(i), [Exec], limit, work);
    RunCons(s5, Exec, [], limit, work);
  }

  /** From empty queues the scan puts the first task under the cursor and the second into the next queue. */
  lemma TwoKeyless<T>(s: State<T>, x: T, limit: nat, work: T -> T) returns (t: State<T>)
    requires Unused(s) && s.calls == [] && |s.st.pool.queues| >= 2
    ensures t == Step(Step(s, Submit([], x, true), limit, work), Submit([], x, true), limit, work)
    ensures var i := s.st.pool.cur; var j := After(i, |s.st.pool.queues|);
      && i != j && t.st.pool.queues == s.st.pool.queues[i := [Job(0, [], i, x, true)]][j := [Job(1, [], j, x, true)]]
      && t.st.busy == map[] && t.calls == [] && t.st.ran == []
  {
    var n, i := |s.st.pool.queues|, s.st.pool.cur;
    var j := After(i, n);
    var a, b := Job(0, [], i, x, true), Job(1, [], j, x, true);
    assert ScanIndex(s.st.pool) == i && s.st.pool.queues[i] + [a] == [a];
    var u := Step(s, Submit([], x, true), limit, work);
    assert u.st.pool.cur == j && u.st.pool.queues == s.st.pool.queues[i := [a]];
    assert ScanIndex(u.st.pool) == j && u.st.pool.queues[j] + [b] == [b];
    t := Step(u, Submit([], x, true), limit, work);
  }

  /** The run of two keyless submissions whose second callback comes first. */
  lemma SecondFirst<T>(s: State<T>, x: T, limit: nat, work: T -> T) returns (es: seq<Event<T>>)
    requires Unused(s) && s.calls == [] && |s.st.pool.queues| >= 2 && limit > 0
    ensures var ran := Run(s, es, limit, work).st.ran;
      |ran| == 2 && ran[0].key == [] && ran[1].key == [] && ran[0].ticket > ran[1].ticket
  {
    var i := s.st.pool.cur;
    var j := After(i, |s.st.pool.queues|);
    var a, b := Job(0, [], i, x, true), Job(1, [], j, x, true);
    var t := TwoKeyless(s, x, limit, work);
    SecondWorkerFirst(t, i, j, a, b, limit, work);
    es := [Take(i), Take(j), Finish(j), Exec, Finish(i), Exec];
    var submit := Submit([], x, true);
    RunCons(Step(s, submit, limit, work), submit, es, limit, work);
    RunCons(s, submit, [submit] + es, limit, work);
    es := [submit] + ([submit] + es);
  }

  lemma KeylessOvertakes<T(!new)>(start: State<T>, x: T, limit: nat, work: T -> T)
    requires Unused(start) && |start.st.pool.queues| >= 2 && limit > 0
    ensures !KeylessInOrder(start, limit, work)
  {
    var es := SecondFirst(State(start.st, []), x, limit, work);
    ForeignFirst(start, es, limit, work);
    TwoOutOfOrder(Run(start, Execs(|start.calls|) + es, limit, work).st.ran);
  }

  lemma TwoOutOfOrder<T>(ran: seq<Job<T>>)
    requires |ran| == 2 && ran[0].key == [] && ran[1].key == [] && ran[0].ticket > ran[1].ticket
    ensures !Rising(OfKey(ran, []))
  {
    assert ran[..1] == [ran[0]] && ran[..1][..0] == [];
    assert OfKey(ran[..1], []) == [ran[0]];
    assert OfKey(ran, []) == [ran[0], ran[1]];
  }

  /** Without a key the order is promised exactly when there is one queue, or no callback ever runs. */
  lemma KeylessInOrderIff<T(!new)>(start: State<T>, x: T, limit: nat, work: T -> T)
    requires Unused(start)
    ensures KeylessInOrder(start, limit, work) <==> |start.st.pool.queues| == 1 || limit == 0
  {
    if limit == 0 {
      forall es: seq<Event<T>> ensures Rising(OfKey(Run(start, es, limit, work).st.ran, [])) {
        StaysSilent(start, es, work);
      }
    } else if |start.st.pool.queues| == 1 {
      forall es: seq<Event<T>> ensures Rising(OfKey(Run(start, es, limit, work).st.ran, [])) {
        OneQueueInOrder(start, es, limit, work);
      }
    } else {
      KeylessOvertakes(start, x, limit, work);
    }
  }

  lemma OneQueueInOrder<T>(start: State<T>, es: seq<Event<T>>, limit: nat, work: T -> T)
    requires Unused(start) && |start.st.pool.queues| == 1
    ensures Rising(OfKey(Run(start, es, limit, work).st.ran, []))
  {
    var s := Run(start, es, limit, work);
    UnusedInv(start, work);
    RunKeepsInv(start, es, limit, work);
    SameQueues(start, es, limit, work);
    DonePrefix(s, work);
    forall job | job in s.st.ran && job.key == [] ensures job.slot == 0 {
      assert s.st.sent[job.ticket].slot == 0;
    }
    OfKeyRising(s.st.ran, [], 0);
  }

  lemma {:induction false} SameQueues<T>(s: State<T>, es: seq<Event<T>>, limit: nat, work: T -> T)
    ensures |Run(s, es, limit, work).st.pool.queues| == |s.st.pool.queues|
    decreases |es|
  {
    if es != [] { SameQueues(Step(s, es[0], limit, work), es[1..], limit, work); }
  }
}
