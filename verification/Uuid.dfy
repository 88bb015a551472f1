/** The id generator: the clock second in the high bits and a counter for that second in the low 24. */
module Uuid {
  const TWO_24 := 0x100_0000
  const TWO_31 := 0x8000_0000
  const TWO_32 := 0x1_0000_0000
  const TWO_63 := 0x8000_0000_0000_0000
  const TWO_64 := 0x1_0000_0000_0000_0000
  const TWO_39 := 0x80_0000_0000

  /** Below this clock an id fits int64 with any int32 counter; see IdsFitInt64. */
  const MAX_CLOCK := TWO_39 - 128

  datatype State = State(high: int, low: int)

  const START := State(0, 0)

  /** Go's int32 increment, which wraps around. */
  function Inc32(i: int): int {
    if i + 1 == TWO_31 then i + 1 - TWO_32 else i + 1
  }

  function Tick(s: State, now: int): State {
    State(now, Inc32(if s.high == now then s.low else 0))
  }

  /** The id as a number without bounds. */
  function Raw(s: State): int {
    s.high * TWO_24 + s.low
  }

  /** Go's int64 arithmetic, which wraps around. */
  function Wrap64(i: int): (r: int)
    ensures -TWO_63 <= r < TWO_63
    ensures -TWO_63 <= i < TWO_63 ==> r == i
  {
    (i + TWO_63) % TWO_64 - TWO_63
  }

  function Id(s: State): int {
    Wrap64(Raw(s))
  }

  /** Wrapping the shifted clock first makes no difference. */
  lemma WrapTwice(a: int, b: int)
    ensures Wrap64(Wrap64(a) + b) == Wrap64(a + b)
  {
    var q := (a + TWO_63) / TWO_64;
    assert Wrap64(a) == a - q * TWO_64;
    assert (a + b + TWO_63 - q * TWO_64) % TWO_64 == (a + b + TWO_63) % TWO_64 by { ModShift(a + b + TWO_63, q); }
  }

  lemma ModShift(x: int, q: int)
    ensures (x - q * TWO_64) % TWO_64 == x % TWO_64
  {
    var d := x / TWO_64;
    assert x - q * TWO_64 == (d - q) * TWO_64 + x % TWO_64;
  }

  class UUID {
    var high: int
    var low: int

    constructor ()
      ensures State(high, low) == START
    {
      high, low := 0, 0;
    }

    method Reset(now: int)
      modifies this
      ensures high == now && low == if old(high) == now then old(low) else 0
    {
      if high == now {
        return;
      }
      high := now;
      low := 0;
    }

    /** uuid.go's `Get` when the clock reads `now`. */
    method Get(now: int) returns (id: int)
      modifies this
      ensures State(high, low) == Tick(State(old(high), old(low)), now) && id == Id(State(high, low))
    {
      Reset(now);
      low := Inc32(low);
      id := Wrap64(Wrap64(high * TWO_24) + low);
      WrapTwice(high * TWO_24, low);
    }
  }

  // ----- runs

  ghost predicate Clocks(ts: seq<int>) {
    forall i :: 0 <= i < |ts| ==> 0 <= ts[i] < MAX_CLOCK
  }

  /** The ids, as numbers without bounds, of the calls made at the clock readings `ts`. */
  function RawIds(s: State, ts: seq<int>): (r: seq<int>)
    ensures |r| == |ts|
    decreases |ts|
  {
    if ts == [] then [] else [Raw(Tick(s, ts[0]))] + RawIds(Tick(s, ts[0]), ts[1..])
  }

  /** The ids that the generator hands out at the clock readings `ts`. */
  function Ids(s: State, ts: seq<int>): (r: seq<int>)
    ensures |r| == |ts|
    decreases |ts|
  {
    if ts == [] then [] else [Id(Tick(s, ts[0]))] + Ids(Tick(s, ts[0]), ts[1..])
  }

  lemma {:induction false} IdsAreWrapped(s: State, ts: seq<int>)
    ensures forall k :: 0 <= k < |ts| ==> Ids(s, ts)[k] == Wrap64(RawIds(s, ts)[k])
    decreases |ts|
  {
    if ts != [] { IdsAreWrapped(Tick(s, ts[0]), ts[1..]); }
  }

  ghost predicate Increasing(ids: seq<int>) {
    forall i, j :: 0 <= i < j < |ids| ==> ids[i] < ids[j]
  }

  /**
   The exact condition, on the clock alone: after `count` calls in the current second `now`, the clock
   never goes back, no second sees 2^31 calls, and before the clock moves on by d seconds there are at
   most d * 2^24 calls.
   */
  predicate Paced(now: int, count: nat, ts: seq<int>)
    decreases |ts|
  {
    ts == [] ||
    if ts[0] == now then count + 1 < TWO_31 && Paced(now, count + 1, ts[1..])
    else ts[0] > now && count <= (ts[0] - now) * TWO_24 && Paced(ts[0], 1, ts[1..])
  }

  lemma {:induction false} PacedIff(s: State, ts: seq<int>)
    requires 1 <= s.low < TWO_31
    ensures Increasing([Raw(s)] + RawIds(s, ts)) <==> Paced(s.high, s.low, ts)
    decreases |ts|
  {
    if ts != [] {
      var t := Tick(s, ts[0]);
      var ids := [Raw(t)] + RawIds(t, ts[1..]);
      assert RawIds(s, ts) == ids;
      assert Increasing([Raw(s)] + ids) <==> Raw(s) < Raw(t) && Increasing(ids) by {
        HeadTail(Raw(s), ids);
      }
      if ts[0] == s.high && s.low + 1 == TWO_31 {
        assert Raw(t) < Raw(s);
      } else {
        PacedIff(t, ts[1..]);
      }
    }
  }

  lemma HeadTail(x: int, ids: seq<int>)
    requires ids != []
    ensures Increasing([x] + ids) <==> x < ids[0] && Increasing(ids)
  {
    var all := [x] + ids;
    assert all[0] == x && all[1] == ids[0];
    assert forall i :: 0 <= i < |ids| ==> all[i + 1] == ids[i];
    if x < ids[0] && Increasing(ids) {
      forall i, j | 0 <= i < j < |all| ensures all[i] < all[j] {
        if i > 0 { assert ids[i - 1] < ids[j - 1]; }
        else if j > 1 { assert ids[0] < ids[j - 1]; }
      }
    }
    if Increasing(all) {
      forall i, j | 0 <= i < j < |ids| ensures ids[i] < ids[j] {
        assert all[i + 1] < all[j + 1];
      }
    }
  }

  lemma RawIncreaseIffPaced(ts: seq<int>)
    requires ts != []
    ensures Increasing(RawIds(START, ts)) <==> Paced(ts[0], 1, ts[1..])
  {
    var s := Tick(START, ts[0]);
    assert s == State(ts[0], 1);
    PacedIff(s, ts[1..]);
  }

  /** A fresh generator hands out strictly increasing ids if and only if the clock readings are paced. */
  lemma IdsIncreaseIffPaced(ts: seq<int>)
    requires Clocks(ts) && ts != []
    ensures Increasing(Ids(START, ts)) <==> Paced(ts[0], 1, ts[1..])
  {
    RawIncreaseIffPaced(ts);
    IdsFitInt64(START, ts);
    assert Ids(START, ts) == RawIds(START, ts);
  }

  /** Ids stay inside int64 whatever the counter does. */
  lemma {:induction false} IdsFitInt64(s: State, ts: seq<int>)
    requires Clocks(ts) && -TWO_31 <= s.low < TWO_31
    ensures forall i :: 0 <= i < |ts| ==> -TWO_63 <= RawIds(s, ts)[i] < TWO_63 && Ids(s, ts)[i] == RawIds(s, ts)[i]
    decreases |ts|
  {
    if ts != [] {
      var t := Tick(s, ts[0]);
      IdsFitInt64(t, ts[1..]);
      assert forall i :: 1 <= i < |ts| ==> RawIds(s, ts)[i] == RawIds(t, ts[1..])[i - 1];
      assert forall i :: 1 <= i < |ts| ==> Ids(s, ts)[i] == Ids(t, ts[1..])[i - 1];
    }
  }

  /** A non-decreasing clock with at most 2^24 calls in each second is paced. */
  ghost predicate Calm(ts: seq<int>) {
    && (forall i, j :: 0 <= i < j < |ts| ==> ts[i] <= ts[j])
    && (forall i, j :: 0 <= i < j < |ts| && j - i >= TWO_24 ==> ts[i] < ts[j])
  }

  lemma {:induction false} CalmIsPaced(ts: seq<int>, done: nat, count: nat)
    requires Calm(ts) && 1 <= count <= done <= |ts| && count <= TWO_24
    requires forall i :: done - count <= i < done ==> ts[i] == ts[done - 1]
    ensures Paced(ts[done - 1], count, ts[done..])
    decreases |ts| - done
  {
    if done < |ts| {
      assert ts[done..][0] == ts[done] && ts[done..][1..] == ts[done + 1..];
      if ts[done] == ts[done - 1] {
        assert ts[done - count] == ts[done];
        CalmIsPaced(ts, done + 1, count + 1);
      } else {
        assert ts[done - 1] <= ts[done];
        CalmIsPaced(ts, done + 1, 1);
      }
    }
  }

  /** How many of the readings up to `k` are in a row the same as that one. */
  function InARow(ts: seq<int>, k: nat): (c: nat)
    requires k < |ts|
    ensures 1 <= c <= k + 1
    ensures forall i :: k - c < i <= k ==> ts[i] == ts[k]
    ensures c == k + 1 || ts[k - c] != ts[k]
  {
    if k == 0 || ts[k - 1] != ts[k] then 1 else 1 + InARow(ts, k - 1)
  }

  function StateAt(s: State, ts: seq<int>, k: nat): State
    requires k < |ts|
  {
    Tick(if k == 0 then s else StateAt(s, ts, k - 1), ts[k])
  }

  lemma {:induction false} StateAtRest(s: State, ts: seq<int>, k: nat)
    requires 1 <= k < |ts|
    ensures StateAt(s, ts, k) == StateAt(Tick(s, ts[0]), ts[1..], k - 1)
  {
    if k > 1 { StateAtRest(s, ts, k - 1); }
  }

  lemma {:induction false} RawIdAt(s: State, ts: seq<int>, k: nat)
    requires k < |ts|
    ensures RawIds(s, ts)[k] == Raw(StateAt(s, ts, k))
    decreases k
  {
    if k > 0 {
      RawIdAt(Tick(s, ts[0]), ts[1..], k - 1);
      StateAtRest(s, ts, k);
    }
  }

  /** In a calm run the counter counts the calls of its second. */
  lemma {:induction false} CalmState(ts: seq<int>, k: nat)
    requires Calm(ts) && k < |ts|
    ensures InARow(ts, k) <= TWO_24 && StateAt(START, ts, k) == State(ts[k], InARow(ts, k))
  {
    assert InARow(ts, k) <= TWO_24 by {
      var first := k - InARow(ts, k) + 1;
      assert ts[first] == ts[k];
    }
    if k > 0 { CalmState(ts, k - 1); }
  }

  /** The last second below 2^39 sees its 2^24 calls. */
  ghost predicate LastSecondFull(ts: seq<int>) {
    exists i :: 0 <= i && i + TWO_24 <= |ts| && ts[i] == ts[i + TWO_24 - 1] == TWO_39 - 1
  }

  ghost predicate FitsInt64(ids: seq<int>) {
    forall k :: 0 <= k < |ids| ==> 0 < ids[k] < TWO_63
  }

  lemma CalmIdAt(ts: seq<int>, k: nat)
    requires Calm(ts) && k < |ts| && 0 <= ts[k] < TWO_39
    ensures 0 < RawIds(START, ts)[k] <= TWO_63
    ensures RawIds(START, ts)[k] == TWO_63 <==> ts[k] == TWO_39 - 1 && InARow(ts, k) == TWO_24
  {
    RawIdAt(START, ts, k);
    CalmState(ts, k);
  }

  lemma FullSecond(ts: seq<int>)
    requires Calm(ts)
    ensures LastSecondFull(ts) <==> exists k :: 0 <= k < |ts| && ts[k] == TWO_39 - 1 && InARow(ts, k) == TWO_24
  {
    forall k | 0 <= k < |ts| && ts[k] == TWO_39 - 1 && InARow(ts, k) == TWO_24 ensures LastSecondFull(ts) {
      var i := k - TWO_24 + 1;
      assert ts[i] == ts[i + TWO_24 - 1] == TWO_39 - 1;
    }
    if LastSecondFull(ts) {
      var i :| 0 <= i && i + TWO_24 <= |ts| && ts[i] == ts[i + TWO_24 - 1] == TWO_39 - 1;
      FullCounter(ts, i, TWO_24);
      CalmState(ts, i + TWO_24 - 1);
    }
  }

  lemma CalmRange(ts: seq<int>)
    requires Calm(ts) && forall i :: 0 <= i < |ts| ==> 0 <= ts[i] < TWO_39
    ensures FitsInt64(RawIds(START, ts)) <==> !LastSecondFull(ts)
  {
    forall k | 0 <= k < |ts|
      ensures 0 < RawIds(START, ts)[k] <= TWO_63
      ensures RawIds(START, ts)[k] == TWO_63 <==> ts[k] == TWO_39 - 1 && InARow(ts, k) == TWO_24
    {
      CalmIdAt(ts, k);
    }
    FullSecond(ts);
  }

  lemma {:induction false} FullCounter(ts: seq<int>, i: nat, n: nat)
    requires Calm(ts) && n > 0 && i + n <= |ts| && ts[i] == ts[i + n - 1]
    ensures InARow(ts, i + n - 1) >= n
  {
    if n > 1 {
      assert ts[i] <= ts[i + n - 2] <= ts[i + n - 1];
      FullCounter(ts, i, n - 1);
    }
  }

  /**
   The designed use, on the whole range of 39-bit clocks: a calm run hands out positive, strictly
   increasing ids, so no two agents ever share an fd, if and only if the last second is not used up.
   */
  lemma CalmIdsIncrease(ts: seq<int>)
    requires Calm(ts) && forall i :: 0 <= i < |ts| ==> 0 <= ts[i] < TWO_39
    ensures Increasing(RawIds(START, ts))
    ensures FitsInt64(RawIds(START, ts)) <==> !LastSecondFull(ts)
    ensures Increasing(Ids(START, ts)) <==> !LastSecondFull(ts)
  {
    if ts != [] {
      RawIncreaseIffPaced(ts);
      CalmIsPaced(ts, 1, 1);
    }
    CalmRange(ts);
    if LastSecondFull(ts) {
      FullSecond(ts);
      var k :| 0 <= k < |ts| && ts[k] == TWO_39 - 1 && InARow(ts, k) == TWO_24;
      CalmIdAt(ts, k);
      OverflowBreaks(ts, k);
    } else {
      InRangeSame(ts);
    }
  }

  lemma OverflowBreaks(ts: seq<int>, k: nat)
    requires 0 < k < |ts| && RawIds(START, ts)[k] == TWO_63
    ensures !Increasing(Ids(START, ts))
  {
    IdsAreWrapped(START, ts);
    assert Ids(START, ts)[k] == -TWO_63 <= Ids(START, ts)[0];
  }

  lemma InRangeSame(ts: seq<int>)
    requires FitsInt64(RawIds(START, ts))
    ensures Ids(START, ts) == RawIds(START, ts)
  {
    IdsAreWrapped(START, ts);
  }

  /** In a calm run the n-th call of a second t is answered t * 2^24 + n. */
  lemma CalmId(ts: seq<int>, k: nat)
    requires Calm(ts) && k < |ts|
    ensures RawIds(START, ts)[k] == ts[k] * 0x100_0000 + InARow(ts, k)
    ensures -TWO_63 <= RawIds(START, ts)[k] < TWO_63 ==> Ids(START, ts)[k] == ts[k] * 0x100_0000 + InARow(ts, k)
  {
    RawIdAt(START, ts, k);
    CalmState(ts, k);
    IdsAreWrapped(START, ts);
  }
}
