/** When a task or a callback of a pool is lost, and that whatever is not lost can be brought to its end. */
module PoolLaws {
  import opened Bytes
  import opened TaskPool
  import opened PoolRuns

  /** Calls are appended while the call queue has space, and only then. */
  lemma CallsPosted<T>(s: State<T>, i: nat, limit: nat, work: T -> T)
    ensures var t := Step(s, PostForeign, limit, work);
      t.st == s.st && t.calls == if |s.calls| < limit then s.calls + [Foreign] else s.calls
    ensures i in s.st.busy ==>
      var t, task := Step(s, Finish(i), limit, work), s.st.busy[i];
      t.calls == if task.back && |s.calls| < limit then s.calls + [Done(task.(item := work(task.item)))] else s.calls
  {}

  // ----- nothing is lost without a reason

  /** Every task submitted so far was executed or is on its way, and so is every callback of an executed task. */
  ghost predicate Complete<T>(s: State<T>, work: T -> T) {
    && (forall k {:trigger Kept(s, s.st.sent[k], work)} :: 0 <= k < |s.st.sent| ==> Kept(s, s.st.sent[k], work))
    && (forall k {:trigger CallbackKept(s, s.st.done[k])} ::
          0 <= k < |s.st.done| ==> CallbackKept(s, s.st.done[k]))
  }

  ghost predicate CallbackKept<T>(s: State<T>, d: Job<T>) {
    d.back ==> d in Finished(s)
  }

  ghost predicate Kept<T>(s: State<T>, job: Job<T>, work: T -> T) {
    Worked(job, work) in s.st.done || job in Pending(s.st, job.slot)
  }

  predicate HasSpace<T>(p: Pool<T>, i: int) {
    0 <= i < |p.queues| && |p.queues[i]| < p.cap
  }

  /** The step finds no full queue, and no task panics. */
  predicate Harmless<T>(s: State<T>, e: Event<T>, limit: nat) {
    var p := s.st.pool;
    match e
    case Submit(key, _, _) =>
      if key == [] then exists i :: 0 <= i < |p.queues| && HasSpace(p, i)
      else p.queues != [] && HasSpace(p, KeyIndex(key, |p.queues|))
    case SubmitFixed(idx, _, _) =>
      if 0 <= idx < |p.queues| then HasSpace(p, idx)
      else p.rnd < |p.queues| && HasSpace(p, After(p.rnd, |p.queues|))
    case Finish(i) => i in s.st.busy && s.st.busy[i].back ==> |s.calls| < limit
    case Panic(i) => i !in s.st.busy
    case _ => true
  }

  ghost predicate Good<T>(s: State<T>, work: T -> T) {
    Inv(s, work) && Sound(s.st.pool) && Complete(s, work)
  }

  lemma PlaceComplete<T>(s: State<T>, key: seq<byte>, slot: nat, item: T, back: bool, cur: nat, rnd: nat, work: T -> T)
    requires Good(s, work) && slot < |s.st.pool.queues|
    requires cur < |s.st.pool.queues| && rnd < |s.st.pool.queues|
    ensures var u := Place(s.st, key, slot, item, back);
      var t := s.(st := u.(pool := u.pool.(cur := cur, rnd := rnd)));
      Sound(t.st.pool) && (Complete(t, work) <==> HasSpace(s.st.pool, slot))
  {
    var u := Place(s.st, key, slot, item, back);
    var t := s.(st := u.(pool := u.pool.(cur := cur, rnd := rnd)));
    var n, job := |s.st.sent|, Job(|s.st.sent|, key, slot, item, back);
    forall i: nat ensures Pending(t.st, i) == Pending(s.st, i)
                          || (i == slot && HasSpace(s.st.pool, slot) && Pending(t.st, i) == Pending(s.st, i) + [job])
    {
      PendingSent(s.st, job, i);
    }
    assert t.st.sent[n] == job;
    SameCallbacks(s, t, work);
    if HasSpace(s.st.pool, slot) {
      PendingSent(s.st, job, slot);
      forall k | 0 <= k < |t.st.sent| ensures Kept(t, t.st.sent[k], work) {
        if k < n { assert Kept(s, s.st.sent[k], work); }
      }
    } else {
      NotYetThere(s, job, work);
      assert !Kept(t, t.st.sent[n], work);
    }
  }

  lemma SameCallbacks<T>(s: State<T>, t: State<T>, work: T -> T)
    requires Complete(s, work) && t.st.done == s.st.done && Finished(t) == Finished(s)
    ensures forall k {:trigger CallbackKept(t, t.st.done[k])} :: 0 <= k < |t.st.done| ==> CallbackKept(t, t.st.done[k])
  {
    forall k | 0 <= k < |t.st.done| ensures CallbackKept(t, t.st.done[k]) { assert CallbackKept(s, s.st.done[k]); }
  }

  /** A task that was not submitted is neither executed nor pending. */
  lemma NotYetThere<T>(s: State<T>, job: Job<T>, work: T -> T)
    requires Inv(s, work) && job.ticket == |s.st.sent|
    ensures !Kept(s, job, work)
  {
    assert QueueInOrder(s.st.done, Pending(s.st, job.slot), s.st.sent, job.slot);
  }

  lemma HeadIsOldest<T>(pending: seq<Job<T>>)
    requires Rising(pending) && pending != []
    ensures forall p :: p in pending ==> p == pending[0] || p in pending[1..]
    ensures forall p :: p in pending[1..] ==> pending[0].ticket < p.ticket
  {
    forall p | p in pending[1..] ensures pending[0].ticket < p.ticket {
      var k :| 0 <= k < |pending[1..]| && pending[1..][k] == p;
      assert pending[k + 1] == p;
    }
    assert pending == [pending[0]] + pending[1..];
  }

  /** What a worker holds is the oldest pending task of its queue and was not executed yet. */
  lemma HeldTask<T>(s: State<T>, i: nat, work: T -> T)
    requires Inv(s, work) && i in s.st.busy
    ensures var job, pending := s.st.busy[i], Pending(s.st, i);
      && pending != [] && pending[0] == job && job !in pending[1..] && job.slot == i
      && job.ticket < |s.st.sent| && s.st.sent[job.ticket] == job
      && Worked(job, work) !in s.st.done && Worked(job, work) !in Finished(s)
  {
    var pending := Pending(s.st, i);
    IdlePending(s.st, i, i);
    assert QueueInOrder(s.st.done, pending, s.st.sent, i) && QueueInOrder(Finished(s), pending, s.st.sent, i);
    assert pending[0] in pending;
    HeadIsOldest(pending);
  }

  /** When worker `i` lets go of its task, all others that were pending still are. */
  lemma OthersPending<T>(s: State<T>, i: nat, j: nat, job: Job<T>, work: T -> T)
    requires Inv(s, work) && i in s.st.busy && job in Pending(s.st, j)
    ensures job in Pending(Idle(s.st, i), j) || (j == i && job == s.st.busy[i])
  {
    IdlePending(s.st, i, j);
    if j == i {
      HeldTask(s, i, work);
      assert QueueInOrder(s.st.done, Pending(s.st, i), s.st.sent, i);
      HeadIsOldest(Pending(s.st, i));
    }
  }

  lemma FinishKept<T>(s: State<T>, i: nat, limit: nat, work: T -> T, job: Job<T>)
    requires Inv(s, work) && i in s.st.busy && Kept(s, job, work)
    ensures Kept(Step(s, Finish(i), limit, work), job, work)
  {
    var t, held := Step(s, Finish(i), limit, work), s.st.busy[i];
    assert t.st.done == s.st.done + [Worked(held, work)];
    assert Pending(t.st, job.slot) == Pending(Idle(s.st, i), job.slot);
    if job in Pending(s.st, job.slot) { OthersPending(s, i, job.slot, job, work); }
  }

  lemma FinishComplete<T>(s: State<T>, i: nat, limit: nat, work: T -> T)
    requires Good(s, work) && i in s.st.busy
    ensures Complete(Step(s, Finish(i), limit, work), work) <==> Harmless(s, Finish(i), limit)
  {
    var t, job := Step(s, Finish(i), limit, work), Worked(s.st.busy[i], work);
    HeldTask(s, i, work);
    CallbacksPosted(s.calls, Done(job));
    assert t.st.done[|s.st.done|] == job;
    if Harmless(s, Finish(i), limit) {
      forall k | 0 <= k < |t.st.sent| ensures Kept(t, t.st.sent[k], work) {
        assert Kept(s, s.st.sent[k], work);
        FinishKept(s, i, limit, work, s.st.sent[k]);
      }
      assert Finished(t) == if job.back then Finished(s) + [job] else Finished(s);
      forall k | 0 <= k < |t.st.done| ensures CallbackKept(t, t.st.done[k]) {
        if k < |s.st.done| { assert CallbackKept(s, s.st.done[k]); }
      }
    } else {
      assert Finished(t) == Finished(s);
      assert !CallbackKept(t, t.st.done[|s.st.done|]);
    }
  }

  lemma PanicComplete<T>(s: State<T>, i: nat, work: T -> T)
    requires Good(s, work) && i in s.st.busy
    ensures !Complete(s.(st := Idle(s.st, i)), work)
  {
    var t, job := s.(st := Idle(s.st, i)), s.st.busy[i];
    HeldTask(s, i, work);
    IdlePending(s.st, i, i);
    assert !Kept(t, t.st.sent[job.ticket], work);
  }

  lemma SameKept<T>(s: State<T>, t: State<T>, work: T -> T)
    requires Complete(s, work) && t.st.sent == s.st.sent && t.st.done == s.st.done && Finished(t) == Finished(s)
    requires forall i: nat :: Pending(t.st, i) == Pending(s.st, i)
    ensures Complete(t, work)
  {
    forall k | 0 <= k < |t.st.sent| ensures Kept(t, t.st.sent[k], work) { assert Kept(s, s.st.sent[k], work); }
    SameCallbacks(s, t, work);
  }

  lemma SubmitComplete<T>(s: State<T>, key: seq<byte>, item: T, back: bool, limit: nat, work: T -> T)
    requires Good(s, work)
    ensures var t := Step(s, Submit(key, item, back), limit, work);
      Sound(t.st.pool) && (Complete(t, work) <==> Harmless(s, Submit(key, item, back), limit))
  {
    var p := s.st.pool;
    var n := |p.queues|;
    if key == [] {
      var i := ScanIndex(p);
      ScanStopsOnce(p, i);
      LostOnlyWhenAllFull(p, i);
      assert forall k :: 0 <= k < n ==> (Free(p, k) <==> HasSpace(p, k));
      PlaceComplete(s, [], i, item, back, After(i, n), p.rnd, work);
    } else {
      PlaceComplete(s, key, KeyIndex(key, n), item, back, p.cur, p.rnd, work);
    }
  }

  lemma SubmitFixedComplete<T>(s: State<T>, idx: int, item: T, back: bool, limit: nat, work: T -> T)
    requires Good(s, work)
    ensures var t := Step(s, SubmitFixed(idx, item, back), limit, work);
      Sound(t.st.pool) && (Complete(t, work) <==> Harmless(s, SubmitFixed(idx, item, back), limit))
  {
    var p := s.st.pool;
    if 0 <= idx < |p.queues| {
      PlaceComplete(s, [], idx, item, back, p.cur, p.rnd, work);
    } else {
      var i := After(p.rnd, |p.queues|);
      PlaceComplete(s, [], i, item, back, p.cur, i, work);
    }
  }

  lemma QuietComplete<T>(s: State<T>, e: Event<T>, limit: nat, work: T -> T)
    requires Good(s, work) && (e.Take? || e.PostForeign? || e.Exec?)
    ensures Complete(Step(s, e, limit, work), work)
  {
    var t := Step(s, e, limit, work);
    match e
    case Take(k) =>
      forall i: nat ensures Pending(t.st, i) == Pending(s.st, i) {
        if i == k && t.st != s.st {
          var q := s.st.pool.queues[i];
          assert [] + q == [q[0]] + q[1..];
        }
      }
      SameKept(s, t, work);
    case PostForeign =>
      CallbacksPosted(s.calls, Foreign);
      SameKept(s, t, work);
    case Exec =>
      if s.calls != [] && s.calls[0].Done? {
        var later := Callbacks(s.calls[1..]);
        assert s.st.ran + ([s.calls[0].job] + later) == (s.st.ran + [s.calls[0].job]) + later;
      }
      SameKept(s, t, work);
  }

  /**
   A step loses a task or a callback if and only if it finds the queue that it needs full, for a task without
   a key all queues, or the task panics.
   */
  lemma StepLosesIffHarmful<T>(s: State<T>, e: Event<T>, limit: nat, work: T -> T)
    requires Good(s, work)
    ensures Inv(Step(s, e, limit, work), work) && Sound(Step(s, e, limit, work).st.pool)
    ensures Complete(Step(s, e, limit, work), work) <==> Harmless(s, e, limit)
  {
    StepKeepsInv(s, e, limit, work);
    match e
    case Submit(key, item, back) => SubmitComplete(s, key, item, back, limit, work);
    case SubmitFixed(idx, item, back) => SubmitFixedComplete(s, idx, item, back, limit, work);
    case Finish(i) => if i in s.st.busy { FinishComplete(s, i, limit, work); }
    case Panic(i) =>
      if i in s.st.busy { PanicComplete(s, i, work); } else { assert s.st.busy - {i} == s.st.busy; }
    case _ => QuietComplete(s, e, limit, work);
  }

  lemma UnusedIsGood<T>(s: State<T>, work: T -> T)
    requires Unused(s)
    ensures Good(s, work)
  {
    UnusedInv(s, work);
  }

  ghost predicate HarmlessRun<T>(s: State<T>, es: seq<Event<T>>, limit: nat, work: T -> T)
    decreases |es|
  {
    es == [] || (Harmless(s, es[0], limit) && HarmlessRun(Step(s, es[0], limit, work), es[1..], limit, work))
  }

  /** A run that never does so loses nothing. */
  lemma {:induction false} HarmlessRunIsComplete<T>(s: State<T>, es: seq<Event<T>>, limit: nat, work: T -> T)
    requires Good(s, work) && HarmlessRun(s, es, limit, work)
    ensures Good(Run(s, es, limit, work), work)
    decreases |es|
  {
    if es != [] {
      StepLosesIffHarmful(s, es[0], limit, work);
      HarmlessRunIsComplete(Step(s, es[0], limit, work), es[1..], limit, work);
    }
  }

  // ----- what is pending can be served

  /** The oldest task of a queue is executed by its worker, and its callback runs behind the calls before it. */
  lemma OldestIsServed<T>(s: State<T>, i: nat, limit: nat, work: T -> T)
    requires i < |s.st.pool.queues| && i !in s.st.busy && s.st.pool.queues[i] != [] && s.st.pool.queues[i][0].back
    requires s.calls == [] && limit > 0
    ensures var job := Worked(s.st.pool.queues[i][0], work);
      var t := Run(s, [Take(i), Finish(i), Exec], limit, work);
      && t.calls == [] && t.st.done == s.st.done + [job] && t.st.ran == s.st.ran + [job]
      && t.st.pool.queues == s.st.pool.queues[i := s.st.pool.queues[i][1..]] && t.st.busy == s.st.busy
      && t.st.sent == s.st.sent
  {
    var s1 := Step(s, Take(i), limit, work);
    var s2 := Step(s1, Finish(i), limit, work);
    assert s2.calls == [Done(Worked(s.st.pool.queues[i][0], work))];
    assert s1.st.busy - {i} == s.st.busy;
    RunCons(s, Take(i), [Finish(i), Exec], limit, work);
    RunCons(s1, Finish(i), [Exec], limit, work);
    RunCons(s2, Exec, [], limit, work);
  }
}
