/** The task pool: bounded queues, a keyed choice of queue, and a round-robin scan without a key. */
module TaskPool {
  import opened Bytes

  const DEFAULT_TASKS := 300
  const DEFAULT_CHAN := 10000

  /** The queues with their common bound, the next queue of the scan, and the last one of AddFixedTask. */
  datatype Pool<+T> = Pool(queues: seq<seq<T>>, cap: nat, cur: nat, rnd: nat)

  /** No queue is over its bound and both indices are in range. */
  ghost predicate Sound<T>(p: Pool<T>) {
    && p.queues != [] && p.cap > 0 && p.cur < |p.queues| && p.rnd < |p.queues|
    && (forall i :: 0 <= i < |p.queues| ==> |p.queues[i]| <= p.cap)
  }

  function Empties<T>(n: nat): (r: seq<seq<T>>)
    ensures |r| == n && forall i :: 0 <= i < n ==> r[i] == []
  {
    seq(n, _ => [])
  }

  function NewPool<T>(taskNum: int, chanNum: int): Pool<T> {
    Pool(Empties(if taskNum <= 0 then DEFAULT_TASKS else taskNum),
         if chanNum <= 0 then DEFAULT_CHAN else chanNum, 0, 0)
  }

  predicate Free<T>(p: Pool<T>, i: nat) {
    i < |p.queues| && |p.queues[i]| < p.cap
  }

  /** The non-blocking send of a `select` with a default: the task is lost when the queue is full. */
  function Send<T>(p: Pool<T>, i: nat, task: T): (r: Pool<T>)
    requires i < |p.queues|
    ensures |r.queues| == |p.queues|
  {
    if Free(p, i) then p.(queues := p.queues[i := p.queues[i] + [task]]) else p
  }

  /** A worker's receive. */
  function Receive<T>(p: Pool<T>, i: nat): (r: Pool<T>)
    requires i < |p.queues| && p.queues[i] != []
    ensures |r.queues| == |p.queues|
  {
    p.(queues := p.queues[i := p.queues[i][1..]])
  }

  /** The queue after `i` on the ring. */
  function After(i: nat, n: nat): (r: nat)
    requires i < n
    ensures r < n && r == (i + 1) % n
  {
    if i + 1 == n then (assert n % n == 0; 0) else i + 1
  }

  /** The queue that is `d` places after `from` on the ring. */
  function Ring(from: nat, d: nat, n: nat): (i: nat)
    requires from < n && d <= n
    ensures i < n
  {
    if from + d < n then from + d else from + d - n
  }

  /** The scan stops at `i`: the first queue with space from `cur` on, or `cur` again when there is none. */
  ghost predicate ScanStops<T>(p: Pool<T>, i: nat)
    requires Sound(p)
  {
    exists d :: StopsAfter(p, i, d)
  }

  /** The scan passed the `d` full queues from `cur` on and stops at `i`. */
  ghost predicate StopsAfter<T>(p: Pool<T>, i: nat, d: nat)
    requires Sound(p)
  {
    var n := |p.queues|;
    && d <= n && i == Ring(p.cur, d, n)
    && (forall e :: 0 <= e < d ==> !Free(p, Ring(p.cur, e, n)))
    && (d < n ==> Free(p, i))
  }

  /** The scan as a function: at most `left` more queues are looked at. */
  function ScanFrom<T>(p: Pool<T>, i: nat, left: nat): (r: nat)
    requires i < |p.queues|
    ensures r < |p.queues|
    decreases left
  {
    if left == 0 || Free(p, i) then i else ScanFrom(p, After(i, |p.queues|), left - 1)
  }

  function ScanIndex<T>(p: Pool<T>): (r: nat)
    requires p.cur < |p.queues|
    ensures r < |p.queues|
  {
    ScanFrom(p, p.cur, |p.queues|)
  }

  lemma {:induction false} ScanFromStops<T>(p: Pool<T>, d: nat)
    requires Sound(p) && d <= |p.queues| && forall e :: 0 <= e < d ==> !Free(p, Ring(p.cur, e, |p.queues|))
    ensures ScanStops(p, ScanFrom(p, Ring(p.cur, d, |p.queues|), |p.queues| - d))
    decreases |p.queues| - d
  {
    var n := |p.queues|;
    var i := Ring(p.cur, d, n);
    if d == n || Free(p, i) {
      assert StopsAfter(p, i, d);
    } else {
      assert After(i, n) == Ring(p.cur, d + 1, n);
      ScanFromStops(p, d + 1);
    }
  }

  /** The scan stops in one place only. */
  lemma ScanStopsOnce<T>(p: Pool<T>, i: nat)
    requires Sound(p)
    ensures ScanStops(p, i) <==> i == ScanIndex(p)
  {
    ScanFromStops(p, 0);
    assert Ring(p.cur, 0, |p.queues|) == p.cur;
    var e :| StopsAfter(p, ScanIndex(p), e);
    if ScanStops(p, i) {
      var d :| StopsAfter(p, i, d);
    }
  }

  /** One keyless `AddTask`: the scanned queue gets the task if it can, and the cursor moves past it. */
  ghost predicate Submits<T>(p: Pool<T>, task: T, q: Pool<T>)
    requires Sound(p)
  {
    exists i :: 0 <= i < |p.queues| && ScanStops(p, i)
      && q == Send(p, i, task).(cur := After(i, |p.queues|))
  }

  // ----- hashing of keys

  /** FNV-1a over the bytes of the key. */
  function HashBytes(s: seq<byte>, h: bv32): bv32 {
    if s == [] then h else HashBytes(s[1..], (h ^ (s[0] as bv32)) * 0x0100_0193)
  }

  function KeyIndex(key: seq<byte>, n: nat): (i: nat)
    requires n > 0
    ensures i < n && i == HashBytes(key, 0x811c_9dc5) as nat % n
  {
    HashBytes(key, 0x811c_9dc5) as nat % n
  }

  /** FNV-1a as published: the hash of "a". */
  lemma HashSample()
    ensures HashBytes([97], 0x811c_9dc5) == 0xe40c_292c
  {}

  class TaskQueues<T> {
    var queues: seq<seq<T>>
    var chanNum: nat
    var curIndex: nat
    var rndIdx: nat

    function State(): Pool<T>
      reads this
    {
      Pool(queues, chanNum, curIndex, rndIdx)
    }

    constructor (taskNum: int, chanNum: int)
      ensures State() == NewPool(taskNum, chanNum) && Sound(State())
    {
      queues := Empties(if taskNum <= 0 then DEFAULT_TASKS else taskNum);
      this.chanNum := if chanNum <= 0 then DEFAULT_CHAN else chanNum;
      curIndex, rndIdx := 0, 0;
    }

    method TrySend(index: nat, task: T) returns (sent: bool)
      requires index < |queues|
      modifies `queues
      ensures State() == Send(old(State()), index, task) && sent == old(Free(State(), index))
    {
      sent := |queues[index]| < chanNum;
      if sent {
        queues := queues[index := queues[index] + [task]];
      }
    }

    /** The receive of the worker of a queue that is not empty. */
    method TakeTask(index: nat) returns (task: T)
      requires index < |queues| && queues[index] != []
      modifies `queues
      ensures State() == Receive(old(State()), index) && task == old(queues[index][0])
      ensures old(Sound(State())) ==> Sound(State())
    {
      task := queues[index][0];
      queues := queues[index := queues[index][1..]];
    }

    /** The scan of `AddTask` without a key: it ends within one lap. */
    method FindQueue() returns (index: nat)
      requires Sound(State())
      ensures index < |queues| && ScanStops(State(), index) && index == ScanIndex(State())
    {
      var n := |queues|;
      index := curIndex;
      ghost var d := 0;
      while true
        invariant 0 <= d < n && index == Ring(curIndex, d, n)
        invariant forall e :: 0 <= e < d ==> !Free(State(), Ring(curIndex, e, n))
        decreases n - d
      {
        if |queues[index]| < chanNum {
          assert StopsAfter(State(), index, d);
          ScanStopsOnce(State(), index);
          return;
        }
        assert (index + 1) % n == After(index, n);
        index := (index + 1) % n;
        d := d + 1;
        if index == curIndex {
          assert StopsAfter(State(), index, n);
          ScanStopsOnce(State(), index);
          return;
        }
      }
    }

    /** `AddTask` with an empty key. */
    method AddTask(task: T) returns (sent: bool)
      requires Sound(State())
      modifies this
      ensures Sound(State()) && Submits(old(State()), task, State())
      ensures sent <==> queues != old(queues)
    {
      var index := FindQueue();
      curIndex := (index + 1) % |queues|;
      sent := TrySend(index, task);
    }

    /** `AddTask` with a key: the key alone decides the queue. */
    method AddKeyedTask(task: T, key: seq<byte>) returns (sent: bool)
      requires Sound(State())
      modifies `queues
      ensures Sound(State())
      ensures State() == Send(old(State()), KeyIndex(key, |old(queues)|), task)
      ensures sent == old(Free(State(), KeyIndex(key, |queues|)))
    {
      var index := KeyIndex(key, |queues|);
      sent := TrySend(index, task);
    }

    /** `AddFixedTask`: an index out of range moves on to the next queue; -1 says the task was lost. */
    method AddFixedTask(task: T, idx: int) returns (used: int)
      requires Sound(State())
      modifies `queues, `rndIdx
      ensures Sound(State())
      ensures var n := |old(queues)|;
        var i := if 0 <= idx < n then idx else (old(rndIdx) + 1) % n;
        && State() == Send(old(State()), i, task).(rnd := if 0 <= idx < n then old(rndIdx) else i)
        && used == if old(Free(State(), i)) then i else -1
    {
      used := idx;
      if idx < 0 || idx >= |queues| {
        used := (rndIdx + 1) % |queues|;
        rndIdx := used;
      }
      var sent := TrySend(used, task);
      if !sent {
        used := -1;
      }
    }
  }

  // ----- what the scan promises

  /** A keyless task is lost only when every queue is full. */
  lemma LostOnlyWhenAllFull<T>(p: Pool<T>, i: nat)
    requires Sound(p) && ScanStops(p, i)
    ensures Free(p, i) <==> exists k :: 0 <= k < |p.queues| && Free(p, k)
  {
    if !Free(p, i) {
      var n := |p.queues|;
      var d :| StopsAfter(p, i, d);
      forall k | 0 <= k < n ensures !Free(p, k) {
        assert k == Ring(p.cur, if k >= p.cur then k - p.cur else k + n - p.cur, n);
      }
    }
  }

  ghost predicate AllFull<T>(p: Pool<T>) {
    forall i :: 0 <= i < |p.queues| ==> |p.queues[i]| == p.cap
  }

  /** Tasks were dealt like cards: the queues before the cursor hold one more than the others. */
  ghost predicate Dealt<T>(p: Pool<T>)
    requires Sound(p)
  {
    forall i :: 0 <= i < |p.queues| ==> |p.queues[i]| == |p.queues[|p.queues| - 1]| + if i < p.cur then 1 else 0
  }

  lemma DealOne<T>(p: Pool<T>, task: T, q: Pool<T>)
    requires Sound(p) && (Dealt(p) || AllFull(p)) && Submits(p, task, q)
    ensures Sound(q) && (Dealt(q) || AllFull(q)) && |q.queues| == |p.queues| && q.cap == p.cap
    ensures if AllFull(p) then q.queues == p.queues
            else q.queues == p.queues[p.cur := p.queues[p.cur] + [task]]
  {
    var n := |p.queues|;
    var i :| 0 <= i < n && ScanStops(p, i) && q == Send(p, i, task).(cur := After(i, n));
    LostOnlyWhenAllFull(p, i);
    if !AllFull(p) {
      assert |p.queues[p.cur]| == |p.queues[n - 1]| < p.cap;
      var d :| StopsAfter(p, i, d);
      assert Ring(p.cur, 0, n) == p.cur;
      assert i == p.cur;
    }
  }

  ghost function Held<T>(queues: seq<seq<T>>): nat {
    if queues == [] then 0 else |queues[0]| + Held(queues[1..])
  }

  lemma {:induction false} HeldFull<T>(queues: seq<seq<T>>, cap: nat)
    requires forall i :: 0 <= i < |queues| ==> |queues[i]| <= cap
    ensures Held(queues) <= |queues| * cap
    ensures Held(queues) == |queues| * cap <==> forall i :: 0 <= i < |queues| ==> |queues[i]| == cap
  {
    if queues != [] {
      HeldFull(queues[1..], cap);
      assert |queues| * cap == cap + |queues[1..]| * cap;
      assert forall i :: 1 <= i < |queues| ==> queues[i] == queues[1..][i - 1];
    }
  }

  lemma {:induction false} HeldStep<T>(queues: seq<seq<T>>, i: nat, task: T)
    requires i < |queues|
    ensures Held(queues[i := queues[i] + [task]]) == Held(queues) + 1
  {
    if i > 0 {
      HeldStep(queues[1..], i - 1, task);
      assert queues[i := queues[i] + [task]][1..] == queues[1..][i - 1 := queues[1..][i - 1] + [task]];
    }
  }

  /** The pools that a run of keyless submissions goes through while no worker takes anything. */
  ghost predicate SubmitRun<T>(ps: seq<Pool<T>>, tasks: seq<T>) {
    && |ps| == |tasks| + 1
    && (forall k :: 0 <= k < |ps| ==> Sound(ps[k]))
    && (forall k :: 0 <= k < |tasks| ==> Submits(ps[k], tasks[k], ps[k + 1]))
  }

  function Space<T>(p: Pool<T>): nat {
    |p.queues| * p.cap
  }

  lemma HeldAfter<T>(p: Pool<T>, task: T, q: Pool<T>)
    requires Sound(p) && (Dealt(p) || AllFull(p)) && Submits(p, task, q)
    ensures Sound(q) && (Dealt(q) || AllFull(q)) && |q.queues| == |p.queues| && q.cap == p.cap && Space(q) == Space(p)
    ensures Held(p.queues) <= Space(p)
    ensures Held(q.queues) == if Held(p.queues) < Space(p) then Held(p.queues) + 1 else Held(p.queues)
  {
    DealOne(p, task, q);
    HeldFull(p.queues, p.cap);
    if !AllFull(p) { HeldStep(p.queues, p.cur, task); }
  }

  /** From empty queues m submissions leave min(m, queues * bound) tasks, dealt out evenly. */
  lemma {:induction false} RoundRobin<T>(ps: seq<Pool<T>>, tasks: seq<T>, k: nat)
    requires SubmitRun(ps, tasks) && k <= |tasks|
    requires ps[0].cur == 0 && forall i :: 0 <= i < |ps[0].queues| ==> ps[0].queues[i] == []
    ensures |ps[k].queues| == |ps[0].queues| && Space(ps[k]) == Space(ps[0]) && (Dealt(ps[k]) || AllFull(ps[k]))
    ensures Held(ps[k].queues) == if k < Space(ps[0]) then k else Space(ps[0])
  {
    if k == 0 {
      HeldFull(ps[0].queues, 0);
    } else {
      RoundRobin(ps, tasks, k - 1);
      assert Submits(ps[k - 1], tasks[k - 1], ps[k - 1 + 1]);
      HeldAfter(ps[k - 1], tasks[k - 1], ps[k]);
    }
  }

  /** Dealt or full, no queue is more than one task ahead of another. */
  lemma EvenLengths<T>(p: Pool<T>, i: nat, j: nat)
    requires Sound(p) && (Dealt(p) || AllFull(p)) && i < |p.queues| && j < |p.queues|
    ensures |p.queues[i]| <= |p.queues[j]| + 1
  {}
}
