/**
 A reader that takes packets off the front of a byte buffer, for any way of taking one packet.
 `step` is one round of its loop; frames are the byte strings that the other side wrote.
 */
module Reassembly {
  import opened Common
  import opened Bytes

  datatype Outcome<+E> = Stop | Next | Fail(e: E)

  /** One round: how it ends, what the handler was given and what is left in the buffer. */
  datatype Round<+M, +E> = Round(outcome: Outcome<E>, given: seq<M>, rest: seq<byte>)

  type Step<!M, !E> = seq<byte> -> Round<M, E>

  /** Messages given to the handler, the bytes left over, and the error that ended the call, if any. */
  datatype Drained<+M, +E> = Drained(delivered: seq<M>, rest: seq<byte>, error: Option<E>)

  function Prepend<M, E>(given: seq<M>, d: Drained<M, E>): Drained<M, E> {
    d.(delivered := given + d.delivered)
  }

  /** What one call does with its buffer when at most `n` rounds are left. */
  function Drain<M, E>(step: Step<M, E>, buf: seq<byte>, n: nat): Drained<M, E>
    decreases n
  {
    if n == 0 then Drained([], buf, None)
    else
      var r := step(buf);
      match r.outcome
      case Stop => Drained(r.given, r.rest, None)
      case Fail(e) => Drained(r.given, r.rest, Some(e))
      case Next => Prepend(r.given, Drain(step, r.rest, n - 1))
  }

  /** The read loop over the reads `chunks`, with at most `n` rounds a call, until a call fails. */
  ghost function Receive<M, E>(step: Step<M, E>, buf: seq<byte>, chunks: seq<seq<byte>>, n: nat): Drained<M, E>
    decreases |chunks|
  {
    if chunks == [] then Drained([], buf, None)
    else
      var d := Drain(step, buf + chunks[0], n);
      if d.error.Some? then d else Prepend(d.delivered, Receive(step, d.rest, chunks[1..], n))
  }

  /** The buffers that a call works on: all rounds but the last one went on, and the last one ended the call. */
  ghost predicate Rounds<M, E>(step: Step<M, E>, bufs: seq<seq<byte>>, n: nat) {
    && 1 <= |bufs| <= n
    && (forall k :: 0 <= k < |bufs| - 1 ==> step(bufs[k]).outcome == Next && bufs[k + 1] == step(bufs[k]).rest)
    && (|bufs| < n ==> step(bufs[|bufs| - 1]).outcome != Next)
  }

  ghost function AllGiven<M, E>(step: Step<M, E>, bufs: seq<seq<byte>>): seq<M> {
    if bufs == [] then [] else step(bufs[0]).given + AllGiven(step, bufs[1..])
  }

  /** A call hands over what each of its rounds gives, the last one included, and keeps what that one left. */
  lemma {:induction false} CallRounds<M, E>(step: Step<M, E>, buf: seq<byte>, n: nat) returns (bufs: seq<seq<byte>>)
    requires n > 0
    ensures Rounds(step, bufs, n) && bufs[0] == buf
    ensures var d, last := Drain(step, buf, n), step(bufs[|bufs| - 1]);
      && d.delivered == AllGiven(step, bufs) && d.rest == last.rest
      && d.error == if last.outcome.Fail? then Some(last.outcome.e) else None
    decreases n
  {
    var r := step(buf);
    if r.outcome == Next && n > 1 {
      var later := CallRounds(step, r.rest, n - 1);
      bufs := [buf] + later;
      assert bufs[1..] == later && bufs[|bufs| - 1] == later[|later| - 1];
    } else {
      bufs := [buf];
      assert bufs[1..] == [];
      if r.outcome == Next { assert Drain(step, r.rest, 0) == Drained([], r.rest, None); }
    }
  }

  /** The loop seen from the middle: `given` was handed over so far and `n` rounds are left. */
  ghost predicate DrainsTo<M, E>(step: Step<M, E>, all: Drained<M, E>, given: seq<M>, buf: seq<byte>, n: nat) {
    all == Prepend(given, Drain(step, buf, n))
  }

  lemma DrainStep<M, E>(step: Step<M, E>, all: Drained<M, E>, given: seq<M>, buf: seq<byte>, n: nat)
    requires n > 0 && DrainsTo(step, all, given, buf, n)
    ensures var r := step(buf); match r.outcome
      case Stop => all == Drained(given + r.given, r.rest, None)
      case Fail(e) => all == Drained(given + r.given, r.rest, Some(e))
      case Next => DrainsTo(step, all, given + r.given, r.rest, n - 1)
  {
    var r := step(buf);
    if r.outcome == Next {
      var later := Drain(step, r.rest, n - 1).delivered;
      assert given + (r.given + later) == (given + r.given) + later;
    }
  }

  // ----- streams of frames

  /** At the front of any buffer the frame `f` is taken off and handed over as `m`; cut short it is left alone. */
  ghost predicate Carries<M, E>(step: Step<M, E>, f: seq<byte>, m: M) {
    && f != []
    && (forall rest :: step(f + rest) == Round(Next, [m], rest))
    && (forall k :: 0 <= k < |f| ==> step(f[..k]) == Round(Stop, [], f[..k]))
  }

  ghost predicate CarriesAll<M, E>(step: Step<M, E>, fs: seq<seq<byte>>, ms: seq<M>) {
    && |fs| == |ms|
    && (forall i :: 0 <= i < |fs| ==> Carries(step, fs[i], ms[i]))
    && step([]) == Round(Stop, [], [])
  }

  /** How many of the frames lie completely in the first `cut` bytes. */
  ghost function Complete(fs: seq<seq<byte>>, cut: nat): (k: nat)
    ensures k <= |fs|
  {
    if fs == [] || cut < |fs[0]| then 0 else 1 + Complete(fs[1..], cut - |fs[0]|)
  }

  function Min(a: nat, b: nat): nat {
    if a < b then a else b
  }

  lemma {:induction false} ConcatSplit<T>(parts: seq<seq<T>>, k: nat)
    requires k <= |parts|
    ensures Concat(parts) == Concat(parts[..k]) + Concat(parts[k..])
  {
    if k > 0 {
      assert parts[..k][1..] == parts[1..][..k - 1] && parts[1..][k - 1..] == parts[k..];
      ConcatSplit(parts[1..], k - 1);
    }
  }

  lemma StepOnPart<M, E>(step: Step<M, E>, fs: seq<seq<byte>>, ms: seq<M>, buf: seq<byte>)
    requires CarriesAll(step, fs, ms) && buf <= Concat(fs) && (fs == [] || |buf| < |fs[0]|)
    ensures step(buf) == Round(Stop, [], buf)
  {
    if fs != [] {
      assert Carries(step, fs[0], ms[0]);
      assert buf == Concat(fs)[..|buf|] == fs[0][..|buf|];
    }
  }

  lemma FirstFrame(fs: seq<seq<byte>>, buf: seq<byte>)
    requires fs != [] && |fs[0]| <= |buf| && buf <= Concat(fs)
    ensures buf == fs[0] + buf[|fs[0]|..] && buf[|fs[0]|..] <= Concat(fs[1..])
  {
    var f := fs[0];
    assert buf == Concat(fs)[..|buf|];
    assert buf[..|f|] == f;
    PrefixCancel(f, buf[|f|..], Concat(fs[1..]));
  }

  lemma TakeTwice<T>(parts: seq<seq<T>>, j: nat, i: nat)
    requires j + i <= |parts|
    ensures Concat(parts[..j + i]) == Concat(parts[..j]) + Concat(parts[j..][..i])
  {
    var p := parts[..j + i];
    assert p[..j] == parts[..j] && p[j..] == parts[j..][..i];
    ConcatSplit(p, j);
  }

  /** A complete frame in front is handed over, and the call goes on behind it. */
  lemma DrainFirst<M, E>(step: Step<M, E>, fs: seq<seq<byte>>, ms: seq<M>, buf: seq<byte>, n: nat)
    requires CarriesAll(step, fs, ms) && buf <= Concat(fs) && fs != [] && |fs[0]| <= |buf| && n > 0
    ensures var rest := buf[|fs[0]|..];
      && Drain(step, buf, n) == Prepend([ms[0]], Drain(step, rest, n - 1))
      && buf == fs[0] + rest && rest <= Concat(fs[1..])
  {
    FirstFrame(fs, buf);
    assert Carries(step, fs[0], ms[0]);
    assert step(fs[0] + buf[|fs[0]|..]) == Round(Next, [ms[0]], buf[|fs[0]|..]);
  }

  lemma OneFrameMore<M>(fs: seq<seq<byte>>, ms: seq<M>, k: nat, last: seq<byte>)
    requires fs != [] && |fs| == |ms| && k < |fs|
    ensures ms[..k + 1] == [ms[0]] + ms[1..][..k]
    ensures Concat(fs[..k + 1]) + last == fs[0] + (Concat(fs[1..][..k]) + last)
  {
    assert fs[..k + 1][1..] == fs[1..][..k];
    assert fs[0] + (Concat(fs[1..][..k]) + last) == (fs[0] + Concat(fs[1..][..k])) + last;
  }

  /** On a piece of the stream a call hands over its complete frames, but at most `n` of them, and keeps the rest. */
  lemma {:induction false} DrainOnStream<M, E>(step: Step<M, E>, fs: seq<seq<byte>>, ms: seq<M>, buf: seq<byte>, n: nat)
    requires CarriesAll(step, fs, ms) && buf <= Concat(fs)
    ensures var k := Min(n, Complete(fs, |buf|)); var d := Drain(step, buf, n);
      d.error == None && d.delivered == ms[..k] && Concat(fs[..k]) + d.rest == buf
    decreases n
  {
    if n == 0 || fs == [] || |buf| < |fs[0]| {
      if n > 0 { StepOnPart(step, fs, ms, buf); }
      assert Concat(fs[..0]) + buf == buf;
    } else {
      var rest := buf[|fs[0]|..];
      DrainFirst(step, fs, ms, buf, n);
      CarriesRest(step, fs, ms, 1);
      DrainOnStream(step, fs[1..], ms[1..], rest, n - 1);
      OneFrameMore(fs, ms, Min(n - 1, Complete(fs[1..], |rest|)), Drain(step, rest, n - 1).rest);
    }
  }

  lemma PrefixCancel<T>(a: seq<T>, x: seq<T>, y: seq<T>)
    requires a + x <= a + y
    ensures x <= y
  {
    assert (a + y)[|a|..] == y && (a + x)[|a|..] == x;
    assert (a + y)[..|a + x|] == a + x;
  }

  lemma Regroup<T>(a: seq<T>, b: seq<T>, c: seq<T>, d: seq<T>, e: seq<T>, f: seq<T>)
    requires b + c == d + e && a + d == f
    ensures (a + b) + c == f + e
  {
    assert (a + b) + c == a + (b + c);
    assert a + (d + e) == (a + d) + e;
  }

  lemma FirstChunk<T>(buf: seq<T>, chunks: seq<seq<T>>, whole: seq<T>)
    requires chunks != [] && buf + Concat(chunks) <= whole
    ensures var now := buf + chunks[0];
      && now + Concat(chunks[1..]) == buf + Concat(chunks)
      && now <= now + Concat(chunks[1..]) <= whole && now <= whole
  {
    var now := buf + chunks[0];
    assert now + Concat(chunks[1..]) == buf + (chunks[0] + Concat(chunks[1..]));
    assert (buf + Concat(chunks))[..|now|] == now;
  }

  lemma ReceiveStep<M, E>(step: Step<M, E>, fs: seq<seq<byte>>, ms: seq<M>, buf: seq<byte>,
                          chunks: seq<seq<byte>>, n: nat)
    requires CarriesAll(step, fs, ms) && chunks != [] && buf + Concat(chunks) <= Concat(fs)
    ensures var now := buf + chunks[0]; var k := Min(n, Complete(fs, |now|)); var d := Drain(step, now, n);
      && now <= Concat(fs)
      && d.error == None && d.delivered == ms[..k] && Concat(fs[..k]) + d.rest == now
      && d.rest + Concat(chunks[1..]) <= Concat(fs[k..])
  {
    var now, later := buf + chunks[0], Concat(chunks[1..]);
    FirstChunk(buf, chunks, Concat(fs));
    var k := Min(n, Complete(fs, |now|));
    DrainOnStream(step, fs, ms, now, n);
    ConcatSplit(fs, k);
    var rest := Drain(step, now, n).rest;
    assert (Concat(fs[..k]) + rest) + later == Concat(fs[..k]) + (rest + later);
    PrefixCancel(Concat(fs[..k]), rest + later, Concat(fs[k..]));
  }

  lemma CarriesRest<M, E>(step: Step<M, E>, fs: seq<seq<byte>>, ms: seq<M>, j: nat)
    requires CarriesAll(step, fs, ms) && j <= |fs|
    ensures CarriesAll(step, fs[j..], ms[j..])
  {
    forall i | 0 <= i < |fs[j..]| ensures Carries(step, fs[j..][i], ms[j..][i]) {
      assert Carries(step, fs[j + i], ms[j + i]);
    }
  }

  /** What the first call and the calls after it hand over and keep, put together. */
  lemma CallsTogether<M>(fs: seq<seq<byte>>, ms: seq<M>, j: nat, i: nat, rest: seq<byte>, last: seq<byte>,
                         buf: seq<byte>, chunks: seq<seq<byte>>)
    requires |fs| == |ms| && j + i <= |fs| && chunks != []
    requires Concat(fs[..j]) + rest == buf + chunks[0]
    requires Concat(fs[j..][..i]) + last == rest + Concat(chunks[1..])
    ensures ms[..j + i] == ms[..j] + ms[j..][..i]
    ensures Concat(fs[..j + i]) + last == buf + Concat(chunks)
  {
    TakeTwice(fs, j, i);
    Regroup(Concat(fs[..j]), Concat(fs[j..][..i]), last, rest, Concat(chunks[1..]), buf + chunks[0]);
    assert (buf + chunks[0]) + Concat(chunks[1..]) == buf + (chunks[0] + Concat(chunks[1..]));
  }

  /**
   However the stream is cut into reads, nothing fails, what was handed over is a prefix of what was
   sent, and handed-over frames and buffer together are exactly the bytes read.
   */
  lemma {:induction false} StreamDelivery<M, E>(step: Step<M, E>, fs: seq<seq<byte>>, ms: seq<M>, buf: seq<byte>,
                                                chunks: seq<seq<byte>>, n: nat) returns (k: nat)
    requires CarriesAll(step, fs, ms) && buf + Concat(chunks) <= Concat(fs)
    ensures k <= |ms| && Receive(step, buf, chunks, n).error == None
    ensures Receive(step, buf, chunks, n).delivered == ms[..k]
    ensures Concat(fs[..k]) + Receive(step, buf, chunks, n).rest == buf + Concat(chunks)
    decreases |chunks|
  {
    if chunks == [] {
      k := 0;
      assert Concat(fs[..0]) + buf == buf + Concat(chunks);
    } else {
      var j := Min(n, Complete(fs, |buf + chunks[0]|));
      ReceiveStep(step, fs, ms, buf, chunks, n);
      CarriesRest(step, fs, ms, j);
      var d := Drain(step, buf + chunks[0], n);
      var i := StreamDelivery(step, fs[j..], ms[j..], d.rest, chunks[1..], n);
      k := j + i;
      CallsTogether(fs, ms, j, i, d.rest, Receive(step, d.rest, chunks[1..], n).rest, buf, chunks);
    }
  }

  // ----- when a call leaves a complete frame behind

  /** On any bytes at all: a call that ends well with a buffer it could still act on has used all its rounds. */
  lemma {:induction false} LeavesWorkOnlyWhenFull<M, E>(step: Step<M, E>, buf: seq<byte>, n: nat)
    requires forall b {:trigger step(b)} :: step(b).outcome == Next ==> |step(b).given| == 1
    requires forall b {:trigger step(b)} :: step(b).outcome == Stop ==> step(b) == Round(Stop, [], b)
    ensures var d := Drain(step, buf, n);
      d.error == None && step(d.rest).outcome != Stop ==> |d.delivered| == n
    decreases n
  {
    if n > 0 && step(buf).outcome == Next {
      LeavesWorkOnlyWhenFull(step, step(buf).rest, n - 1);
    }
  }

  ghost predicate AllAtLeast(fs: seq<seq<byte>>, size: nat) {
    forall i :: 0 <= i < |fs| ==> |fs[i]| >= size
  }

  lemma {:induction false} CompleteIsSmall(fs: seq<seq<byte>>, cut: nat, size: nat)
    requires AllAtLeast(fs, size)
    ensures size * Complete(fs, cut) <= cut
  {
    if fs != [] && cut >= |fs[0]| {
      CompleteIsSmall(fs[1..], cut - |fs[0]|, size);
      assert size * Complete(fs, cut) == size + size * Complete(fs[1..], cut - |fs[0]|);
    }
  }

  lemma {:induction false} CompleteUses(fs: seq<seq<byte>>, cut: nat, d: nat)
    requires d == Complete(fs, cut)
    ensures |Concat(fs[..d])| <= cut
    ensures d < |fs| ==> cut - |Concat(fs[..d])| < |fs[d]|
  {
    if d > 0 {
      assert fs[..d][1..] == fs[1..][..d - 1];
      CompleteUses(fs[1..], cut - |fs[0]|, d - 1);
    }
  }

  /** Reading at most n * size bytes onto less than one frame completes at most n frames of that size or more. */
  lemma AtMost(fs: seq<seq<byte>>, before: nat, now: nat, size: nat, n: nat)
    requires AllAtLeast(fs, size) && size > 0
    requires before <= now <= before + n * size && (fs == [] || before < |fs[0]|)
    ensures Complete(fs, now) <= n
  {
    if fs != [] && now >= |fs[0]| {
      var c := Complete(fs[1..], now - |fs[0]|);
      CompleteIsSmall(fs[1..], now - |fs[0]|, size);
      FewerThan(size, c, n, now - |fs[0]|);
    }
  }

  lemma FewerThan(size: nat, c: nat, n: nat, x: nat)
    requires size * c <= x < n * size
    ensures c < n
  {
    Monotone(n, c, size);
  }

  lemma Monotone(a: nat, b: nat, m: nat)
    ensures a <= b ==> a * m <= m * b
  {
    if a <= b { assert m * b == a * m + m * (b - a); }
  }

  /** After every call of the run there is nothing left to do in the buffer. */
  ghost predicate AlwaysDrained<M, E>(step: Step<M, E>, buf: seq<byte>, chunks: seq<seq<byte>>, n: nat)
    decreases |chunks|
  {
    chunks == [] ||
    var d := Drain(step, buf + chunks[0], n);
    d.error == None && step(d.rest).outcome == Stop && AlwaysDrained(step, d.rest, chunks[1..], n)
  }

  /** What is left of a piece of the stream after its complete frames, or after the first `n` of them. */
  lemma RestOnStream<M, E>(step: Step<M, E>, fs: seq<seq<byte>>, ms: seq<M>, buf: seq<byte>, n: nat)
    requires CarriesAll(step, fs, ms) && buf <= Concat(fs)
    ensures var c := Complete(fs, |buf|); var k := Min(n, c); var d := Drain(step, buf, n);
      && d.error == None && Concat(fs[..k]) + d.rest == buf && d.rest <= Concat(fs[k..])
      && (fs[k..] == [] || (|d.rest| < |fs[k..][0]| <==> c <= n))
  {
    var c := Complete(fs, |buf|);
    var k := Min(n, c);
    DrainOnStream(step, fs, ms, buf, n);
    ConcatSplit(fs, k);
    PrefixCancel(Concat(fs[..k]), Drain(step, buf, n).rest, Concat(fs[k..]));
    CompleteUses(fs, |buf|, c);
    if n < c {
      ConcatTake(fs, k, c);
    }
  }

  /** The first `k` frames and the next one are among the first `c`. */
  lemma ConcatTake(fs: seq<seq<byte>>, k: nat, c: nat)
    requires k < c <= |fs|
    ensures |Concat(fs[..k])| + |fs[k]| <= |Concat(fs[..c])|
  {
    var p := fs[..c];
    ConcatSplit(p, k);
    assert p[..k] == fs[..k] && p[k..][0] == fs[k];
  }

  /** The exact condition: a call leaves a complete frame behind if and only if its buffer held more than `n`. */
  lemma LeavesFrameIff<M, E>(step: Step<M, E>, fs: seq<seq<byte>>, ms: seq<M>, buf: seq<byte>, n: nat)
    requires CarriesAll(step, fs, ms) && buf <= Concat(fs)
    ensures var d := Drain(step, buf, n);
      d.error == None && step(d.rest).outcome == if Complete(fs, |buf|) <= n then Stop else Next
  {
    var k := Min(n, Complete(fs, |buf|));
    var rest := Drain(step, buf, n).rest;
    RestOnStream(step, fs, ms, buf, n);
    CarriesRest(step, fs, ms, k);
    if Complete(fs, |buf|) <= n {
      StepOnPart(step, fs[k..], ms[k..], rest);
    } else {
      FirstFrame(fs[k..], rest);
      assert Carries(step, fs[k], ms[k]);
      assert step(fs[k] + rest[|fs[k]|..]).outcome == Next;
    }
  }

  /** How many of `now` bytes are behind the complete frames. */
  ghost function Left(fs: seq<seq<byte>>, now: nat): (r: nat)
    ensures |Concat(fs[..Complete(fs, now)])| + r == now
  {
    CompleteUses(fs, now, Complete(fs, now));
    now - |Concat(fs[..Complete(fs, now)])|
  }

  /** Every read completes at most `n` frames, when `before` bytes of an incomplete frame are waiting. */
  ghost predicate ReadsAreSmall(fs: seq<seq<byte>>, before: nat, chunks: seq<seq<byte>>, n: nat)
    decreases |chunks|
  {
    chunks == [] ||
    var now := before + |chunks[0]|;
    var k := Complete(fs, now);
    k <= n && ReadsAreSmall(fs[k..], Left(fs, now), chunks[1..], n)
  }

  /** Where the run stands after a call that left no complete frame. */
  lemma DrainedCall<M, E>(step: Step<M, E>, fs: seq<seq<byte>>, ms: seq<M>, buf: seq<byte>,
                          chunks: seq<seq<byte>>, n: nat)
    requires CarriesAll(step, fs, ms) && chunks != [] && buf + Concat(chunks) <= Concat(fs)
    requires Complete(fs, |buf + chunks[0]|) <= n
    ensures var now := buf + chunks[0]; var k := Complete(fs, |now|); var rest := Drain(step, now, n).rest;
      && CarriesAll(step, fs[k..], ms[k..]) && rest + Concat(chunks[1..]) <= Concat(fs[k..])
      && (fs[k..] == [] || |rest| < |fs[k..][0]|) && |rest| == Left(fs, |now|)
  {
    var now := buf + chunks[0];
    var k := Complete(fs, |now|);
    ReceiveStep(step, fs, ms, buf, chunks, n);
    RestOnStream(step, fs, ms, now, n);
    CarriesRest(step, fs, ms, k);
    assert |Concat(fs[..k]) + Drain(step, now, n).rest| == |now|;
  }

  /** Over a run: no call ever leaves a complete frame behind if and only if no read completes more than `n`. */
  lemma {:induction false} NeverLagsIff<M, E>(step: Step<M, E>, fs: seq<seq<byte>>, ms: seq<M>, buf: seq<byte>,
                                              chunks: seq<seq<byte>>, n: nat)
    requires CarriesAll(step, fs, ms)
    requires buf + Concat(chunks) <= Concat(fs) && (fs == [] || |buf| < |fs[0]|)
    ensures AlwaysDrained(step, buf, chunks, n) <==> ReadsAreSmall(fs, |buf|, chunks, n)
    decreases |chunks|
  {
    if chunks != [] {
      var now := buf + chunks[0];
      var k := Complete(fs, |now|);
      FirstChunk(buf, chunks, Concat(fs));
      LeavesFrameIff(step, fs, ms, now, n);
      if k <= n {
        DrainedCall(step, fs, ms, buf, chunks, n);
        NeverLagsIff(step, fs[k..], ms[k..], Drain(step, now, n).rest, chunks[1..], n);
      }
    }
  }

  lemma {:induction false} SmallReads(fs: seq<seq<byte>>, before: nat, chunks: seq<seq<byte>>, size: nat, n: nat)
    requires AllAtLeast(fs, size) && size > 0 && (fs == [] || before < |fs[0]|)
    requires forall c :: c in chunks ==> |c| <= n * size
    ensures ReadsAreSmall(fs, before, chunks, n)
    decreases |chunks|
  {
    if chunks != [] {
      assert chunks[0] in chunks;
      var now := before + |chunks[0]|;
      var k := Complete(fs, now);
      AtMost(fs, before, now, size, n);
      CompleteUses(fs, now, k);
      SmallReads(fs[k..], Left(fs, now), chunks[1..], size, n);
    }
  }

  /** With reads of at most n * size bytes and frames of at least `size`, no call leaves a complete frame behind. */
  lemma BigFramesNeverLag<M, E>(step: Step<M, E>, fs: seq<seq<byte>>, ms: seq<M>, buf: seq<byte>,
                                chunks: seq<seq<byte>>, size: nat, n: nat)
    requires CarriesAll(step, fs, ms) && AllAtLeast(fs, size) && size > 0
    requires buf + Concat(chunks) <= Concat(fs) && (fs == [] || |buf| < |fs[0]|)
    requires forall c :: c in chunks ==> |c| <= n * size
    ensures AlwaysDrained(step, buf, chunks, n)
  {
    SmallReads(fs, |buf|, chunks, size, n);
    NeverLagsIff(step, fs, ms, buf, chunks, n);
  }
}
