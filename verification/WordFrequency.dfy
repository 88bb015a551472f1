/** Word counts by second, a window of 60 seconds, and the query for the most frequent word. */
module WordFrequency {
  import opened Common

  const WINDOW := 60
  const MAX_WORDS := 1000

  datatype Data = Data(word: string, count: nat)

  // ----- one second

  ghost function Distinct(words: seq<string>): set<string> {
    set w | w in words
  }

  /** The words that a slot counts: after its `cap`-th distinct word it refuses everything. */
  ghost function Accepted(adds: seq<string>, cap: nat): seq<string> {
    if adds == [] then []
    else
      var p := Accepted(adds[..|adds| - 1], cap);
      if |Distinct(p)| == cap then p else p + [adds[|adds| - 1]]
  }

  lemma DistinctAppend(p: seq<string>, w: string)
    ensures Distinct(p + [w]) == Distinct(p) + {w}
    ensures |Distinct(p)| <= |Distinct(p + [w])| <= |Distinct(p)| + 1
  {
    assert forall v :: v in p + [w] <==> v in p || v == w;
    if w in p { assert Distinct(p) + {w} == Distinct(p); }
  }

  /** `p` is a prefix of `adds`, and all of it unless it has `cap` distinct words. */
  ghost predicate Fills(p: seq<string>, adds: seq<string>, cap: nat) {
    && |p| <= |adds| && (forall k :: 0 <= k < |p| ==> p[k] == adds[k])
    && |Distinct(p)| <= cap && (|p| == |adds| || |Distinct(p)| == cap)
  }

  lemma FillsOneMore(p: seq<string>, adds: seq<string>, cap: nat)
    requires adds != [] && Fills(p, adds[..|adds| - 1], cap)
    ensures Fills(if |Distinct(p)| == cap then p else p + [adds[|adds| - 1]], adds, cap)
  {
    DistinctAppend(p, adds[|adds| - 1]);
  }

  lemma {:induction false} AcceptedFills(adds: seq<string>, cap: nat)
    ensures Fills(Accepted(adds, cap), adds, cap)
  {
    if adds != [] {
      AcceptedFills(adds[..|adds| - 1], cap);
      FillsOneMore(Accepted(adds[..|adds| - 1], cap), adds, cap);
    }
  }

  /** Every word is accepted until `cap` different ones were: the prefixes of the accepted words have fewer. */
  lemma {:induction false} AcceptedUntilFull(adds: seq<string>, cap: nat, k: nat)
    requires k < |Accepted(adds, cap)| && k < |adds|
    ensures Accepted(adds, cap)[..k] == Accepted(adds[..k], cap) && |Distinct(Accepted(adds, cap)[..k])| < cap
    decreases |adds|
  {
    AcceptedFills(adds, cap);
    var rest := adds[..|adds| - 1];
    var p := Accepted(rest, cap);
    AcceptedFills(rest, cap);
    if k < |p| {
      AcceptedUntilFull(rest, cap, k);
      assert Accepted(adds, cap)[..k] == p[..k] && adds[..k] == rest[..k];
    } else {
      assert Accepted(adds, cap)[..k] == p && adds[..k] == rest;
    }
  }

  /** Accepted words are a prefix of the offered ones, and all of them unless the slot is full. */
  lemma AcceptedIsPrefix(adds: seq<string>, cap: nat)
    ensures Accepted(adds, cap) <= adds
    ensures |Distinct(Accepted(adds, cap))| <= cap
    ensures Accepted(adds, cap) == adds || |Distinct(Accepted(adds, cap))| == cap
  {
    AcceptedFills(adds, cap);
  }

  ghost function Count(words: seq<string>, w: string): nat {
    multiset(words)[w]
  }

  /** `max` holds a most frequent word of `words`, if there are any words. */
  ghost predicate IsTop(words: seq<string>, max: Option<Data>) {
    && (max == None <==> words == [])
    && (max.Some? ==> Count(words, max.value.word) == max.value.count > 0)
    && (max.Some? ==> forall w :: Count(words, w) <= max.value.count)
  }

  /** The slot's fields are the exact counts of the accepted words `p`. */
  ghost predicate Counts(p: seq<string>, words: map<string, nat>, max: Option<Data>) {
    && words.Keys == Distinct(p)
    && (forall w :: w in words ==> words[w] == Count(p, w))
    && IsTop(p, max)
  }

  lemma CountAppend(p: seq<string>, word: string)
    ensures forall w :: Count(p + [word], w) == Count(p, w) + if w == word then 1 else 0
  {}

  lemma AcceptedAppend(adds: seq<string>, cap: nat, word: string)
    ensures var p := Accepted(adds, cap);
      Accepted(adds + [word], cap) == if |Distinct(p)| == cap then p else p + [word]
  {
    assert (adds + [word])[..|adds|] == adds;
  }

  lemma TopAppend(p: seq<string>, max: Option<Data>, word: string)
    requires IsTop(p, max)
    ensures var n := Count(p, word) + 1;
      IsTop(p + [word], if max == None || n > max.value.count then Some(Data(word, n)) else max)
  {
    CountAppend(p, word);
    if max == None { assert forall w :: Count(p, w) == 0; }
  }

  lemma CountsAppend(p: seq<string>, words: map<string, nat>, max: Option<Data>, word: string)
    requires Counts(p, words, max)
    ensures var n := (if word in words then words[word] else 0) + 1;
      && n == Count(p, word) + 1
      && Counts(p + [word], words[word := n],
                if max == None || n > max.value.count then Some(Data(word, n)) else max)
  {
    CountAppend(p, word);
    TopAppend(p, max, word);
    DistinctAppend(p, word);
    assert word in words <==> word in p;
  }

  /** One more word offered to a slot that is not full. */
  lemma OneMoreWord(adds: seq<string>, cap: nat, words: map<string, nat>, max: Option<Data>, word: string)
    requires Counts(Accepted(adds, cap), words, max)
    ensures |words| == |Distinct(Accepted(adds, cap))|
    ensures |words| == cap ==> Counts(Accepted(adds + [word], cap), words, max)
    ensures |words| != cap ==> var n := (if word in words then words[word] else 0) + 1;
      Counts(Accepted(adds + [word], cap), words[word := n],
             if max == None || n > max.value.count then Some(Data(word, n)) else max)
  {
    assert |words| == |words.Keys|;
    AcceptedAppend(adds, cap, word);
    CountsAppend(Accepted(adds, cap), words, max, word);
  }

  class Words {
    const maxWordNum: nat
    const ts: int
    var maxWord: Option<Data>
    var words: map<string, nat>
    ghost var adds: seq<string>  // every word offered so far

    ghost predicate Valid()
      reads this
    {
      Counts(Accepted(adds, maxWordNum), words, maxWord)
    }

    constructor (maxWordNum: nat, now: int)
      ensures Valid() && adds == [] && this.maxWordNum == maxWordNum && ts == now
    {
      this.maxWordNum, ts := maxWordNum, now;
      maxWord, words, adds := None, map[], [];
    }

    method Add(word: string)
      requires Valid()
      modifies this
      ensures Valid() && adds == old(adds) + [word]
    {
      OneMoreWord(adds, maxWordNum, words, maxWord, word);
      adds := adds + [word];
      if |words| == maxWordNum {
        return;
      }
      var cnt := (if word in words then words[word] else 0) + 1;
      words := words[word := cnt];
      if maxWord == None || cnt > maxWord.value.count {
        maxWord := Some(Data(word, cnt));
      }
    }
  }

  // ----- sorting

  /** meta.go's `Less`, which really means greater; a nil entry comes last. */
  predicate Less(a: Option<Data>, b: Option<Data>) {
    var flag := if a == None then true else if b == None then false else a.value.count <= b.value.count;
    !flag
  }

  /** What `sort.Sort` needs of `Less`. */
  lemma LessIsStrictWeak(a: Option<Data>, b: Option<Data>, c: Option<Data>)
    ensures !Less(a, a)
    ensures Less(a, b) && Less(b, c) ==> Less(a, c)
    ensures !Less(a, b) && !Less(b, c) ==> !Less(a, c)
  {}

  ghost predicate SortedByLess(ds: seq<Data>) {
    forall i, j :: 0 <= i < j < |ds| ==> !Less(Some(ds[j]), Some(ds[i]))
  }

  lemma InsertSorted(r: seq<Data>, i: nat, d: Data)
    requires SortedByLess(r) && i <= |r|
    requires forall j :: 0 <= j < i ==> !Less(Some(d), Some(r[j]))
    requires i < |r| ==> Less(Some(d), Some(r[i]))
    ensures var q := r[..i] + [d] + r[i..]; SortedByLess(q) && multiset(q) == multiset(r) + multiset{d}
  {
    assert r == r[..i] + r[i..];
    var q := r[..i] + [d] + r[i..];
    forall j, k | 0 <= j < k < |q| ensures !Less(Some(q[k]), Some(q[j])) {
      if k > i { assert q[k] == r[k - 1]; }
    }
  }

  /** Stands for `sort.Sort`: any permutation that is sorted by `Less` would do. */
  method Sort(ds: seq<Data>) returns (r: seq<Data>)
    ensures SortedByLess(r) && multiset(r) == multiset(ds)
  {
    r := [];
    var k := 0;
    while k < |ds|
      invariant 0 <= k <= |ds| && SortedByLess(r) && multiset(r) == multiset(ds[..k])
    {
      var i := 0;
      while i < |r| && !Less(Some(ds[k]), Some(r[i]))
        invariant 0 <= i <= |r| && forall j :: 0 <= j < i ==> !Less(Some(ds[k]), Some(r[j]))
      {
        i := i + 1;
      }
      InsertSorted(r, i, ds[k]);
      assert ds[..k + 1] == ds[..k] + [ds[k]];
      r := r[..i] + [ds[k]] + r[i..];
      k := k + 1;
    }
    assert ds[..k] == ds;
  }

  // ----- the window

  /** The word of `d` was accepted exactly `d.count` times, and at least once. */
  ghost predicate Tallies(adds: seq<string>, d: Data) {
    Count(Accepted(adds, MAX_WORDS), d.word) == d.count > 0
  }

  /** What the window sees: the ticker once a second, and words. */
  datatype Happening = Second | Word(word: string)

  function WindowStep(offered: seq<seq<string>>, e: Happening): (r: seq<seq<string>>)
    requires offered != []
    ensures r != []
  {
    match e
    case Second => (if |offered| == WINDOW then offered[1..] else offered) + [[]]
    case Word(word) => offered[..|offered| - 1] + [offered[|offered| - 1] + [word]]
  }

  class Frequency {
    var frqBySec: seq<Words>  // oldest first

    ghost predicate Valid()
      reads this, frqBySec
    {
      && 1 <= |frqBySec| <= WINDOW
      && NoneTwice()
      && (forall i :: SlotOk(i))
    }

    ghost predicate NoneTwice()
      reads this
    {
      forall i, j :: Differ(i, j)
    }

    ghost predicate Differ(i: int, j: int)
      reads this
    {
      0 <= i < j < |frqBySec| ==> frqBySec[i] != frqBySec[j]
    }

    ghost predicate SlotOk(i: int)
      reads this, frqBySec
    {
      0 <= i < |frqBySec| ==> frqBySec[i].Valid() && frqBySec[i].maxWordNum == MAX_WORDS
    }

    /** The words offered in each slot. */
    ghost function Offered(): (r: seq<seq<string>>)
      reads this, frqBySec
      ensures |r| == |frqBySec|
      ensures forall k :: 0 <= k < |r| ==> r[k] == frqBySec[k].adds
    {
      seq(|frqBySec|, k requires 0 <= k < |frqBySec| reads this, frqBySec => frqBySec[k].adds)
    }

    constructor (now: int)
      ensures Valid() && |frqBySec| == 1 && frqBySec[0].adds == [] && fresh(frqBySec[0])
    {
      var w := new Words(MAX_WORDS, now);
      frqBySec := [w];
    }

    /** A second has passed: the oldest of 60 slots goes and an empty slot comes. */
    method OnTimePassed(now: int)
      requires Valid()
      modifies this
      ensures Valid() && Offered() == WindowStep(old(Offered()), Second)
      ensures var kept := if |old(frqBySec)| == WINDOW then old(frqBySec)[1..] else old(frqBySec);
        |frqBySec| == |kept| + 1 && frqBySec[..|kept|] == kept
        && frqBySec[|kept|].adds == [] && frqBySec[|kept|].ts == now && fresh(frqBySec[|kept|])
    {
      ghost var before := Offered();
      var d := 0;
      if |frqBySec| == WINDOW {
        frqBySec := frqBySec[1..];
        d := 1;
      }
      var w := new Words(MAX_WORDS, now);
      frqBySec := frqBySec + [w];
      forall i, j ensures Differ(i, j) { assert old(Differ(i + d, j + d)); }
      forall i ensures SlotOk(i) { assert old(SlotOk(i + d)); }
    }

    /** A word is counted in the newest slot. */
    method OnWord(word: string)
      requires Valid()
      modifies frqBySec[|frqBySec| - 1]
      ensures Valid() && Offered() == WindowStep(old(Offered()), Word(word))
    {
      assert SlotOk(|frqBySec| - 1);
      frqBySec[|frqBySec| - 1].Add(word);
      NewestCounted();
      NewestOffered(word);
    }

    /** A word in the newest slot leaves the other slots as they are. */
    twostate lemma NewestCounted()
      requires old(Valid()) && unchanged(this)
      requires frqBySec[|frqBySec| - 1].Valid()
      requires forall i :: 0 <= i < |frqBySec| && frqBySec[i] != frqBySec[|frqBySec| - 1] ==> unchanged(frqBySec[i])
      ensures Valid()
    {
      forall i, j ensures Differ(i, j) { assert old(Differ(i, j)); }
      forall i ensures SlotOk(i) { SlotKept(i); }
    }

    twostate lemma NewestOffered(word: string)
      requires old(NoneTwice()) && unchanged(this) && frqBySec != []
      requires frqBySec[|frqBySec| - 1].adds == old(frqBySec[|frqBySec| - 1].adds) + [word]
      requires forall i :: 0 <= i < |frqBySec| && frqBySec[i] != frqBySec[|frqBySec| - 1] ==> unchanged(frqBySec[i])
      ensures Offered() == WindowStep(old(Offered()), Word(word))
    {
      var n := |frqBySec| - 1;
      forall k | 0 <= k < n ensures Offered()[k] == old(Offered())[k] { assert old(Differ(k, n)); }
    }

    twostate lemma SlotKept(i: int)
      requires old(SlotOk(i)) && unchanged(this) && frqBySec != [] && old(Differ(i, |frqBySec| - 1))
      requires frqBySec[|frqBySec| - 1].Valid()
      requires forall i :: 0 <= i < |frqBySec| && frqBySec[i] != frqBySec[|frqBySec| - 1] ==> unchanged(frqBySec[i])
      ensures SlotOk(i)
    {
      if 0 <= i < |frqBySec| - 1 { assert unchanged(frqBySec[i]) && old(frqBySec[i].Valid()); }
    }

    /** The slot where a query starts: max(0, offset) back from the tail, or -1 when there is none. */
    method StartSlot(ts: int) returns (start: int)
      requires frqBySec != []
      ensures start == QueryStart(|frqBySec|, ts - frqBySec[|frqBySec| - 1].ts)
      ensures var n, offset := |frqBySec|, ts - frqBySec[|frqBySec| - 1].ts;
        && (offset <= 0 ==> start == n - 1)
        && (0 < offset < n ==> start == n - 1 - offset)
        && (offset >= n ==> start == -1)
    {
      start := |frqBySec| - 1;
      var offset := ts - frqBySec[start].ts;
      var i := 0;
      while i < offset && start >= 0
        invariant 0 <= i && (offset <= 0 ==> i == 0) && (offset > 0 ==> i <= offset)
        invariant -1 <= start == |frqBySec| - 1 - i
      {
        start := start - 1;
        i := i + 1;
      }
    }

    /** The top words of the slots from `from` back, at most `lastN` of them. */
    method Collect(from: int, lastN: nat) returns (frqs: seq<Data>)
      requires Valid() && -1 <= from < |frqBySec|
      ensures AreTops(Offered(), frqs, from, lastN)
    {
      frqs := [];
      var start, i := from, 0;
      while i < lastN && start >= 0
        invariant 0 <= i <= lastN && start == from - i >= -1
        invariant AreTops(Offered(), frqs, from, i)
      {
        assert SlotOk(start);
        NextSlot(Offered(), frqs, from, i, frqBySec[start].maxWord);
        if frqBySec[start].maxWord.Some? {
          frqs := frqs + [frqBySec[start].maxWord.value];
        }
        start := start - 1;
        i := i + 1;
      }
      LastSlot(Offered(), frqs, from, i, lastN);
    }

    /** The second half of `processTask`. */
    method Query(from: int, lastN: nat, ghost back: nat) returns (r: Option<Data>)
      requires Valid() && -1 <= from < |frqBySec|
      requires from == if back < |frqBySec| then |frqBySec| - 1 - back else -1
      ensures AnswersQuery(Offered(), r, back, lastN)
    {
      var frqs := Collect(from, lastN);
      r := First(frqs);
      QueryMeans(Offered(), frqs, r, from, back, lastN);
    }

    /**
     `processTask`, in terms of the words offered: no answer says that the slots asked for counted
     nothing, and otherwise it is the largest count that any word has in any single one of them.
     */
    method ProcessTask(ts: int, lastNSeconds: nat) returns (r: Option<Data>)
      requires Valid()
      ensures var offset := ts - frqBySec[|frqBySec| - 1].ts;
        AnswersQuery(Offered(), r, if offset < 0 then 0 else offset, lastNSeconds)
    {
      var start := StartSlot(ts);
      ghost var offset := ts - frqBySec[|frqBySec| - 1].ts;
      r := Query(start, lastNSeconds, if offset < 0 then 0 else offset);
    }
  }

  ghost predicate TopsASlot(offered: seq<seq<string>>, d: Data, from: int, lastN: nat)
    requires -1 <= from < |offered|
  {
    exists k :: InRange(k, from, lastN) && IsTop(Accepted(offered[k], MAX_WORDS), Some(d))
  }

  /** `frqs` are the top words of the slots from `from` back, at most `lastN` of them. */
  ghost predicate AreTops(offered: seq<seq<string>>, frqs: seq<Data>, from: int, lastN: nat)
    requires -1 <= from < |offered|
  {
    && (forall d {:trigger TopsASlot(offered, d, from, lastN)} :: d in frqs ==> TopsASlot(offered, d, from, lastN))
    && (forall k :: InRange(k, from, lastN) ==>
          exists top :: IsTop(Accepted(offered[k], MAX_WORDS), top) && (top.Some? ==> top.value in frqs))
  }

  lemma NextSlot(offered: seq<seq<string>>, frqs: seq<Data>, from: int, i: nat, top: Option<Data>)
    requires 0 <= from - i <= from < |offered| && AreTops(offered, frqs, from, i)
    requires IsTop(Accepted(offered[from - i], MAX_WORDS), top)
    ensures AreTops(offered, if top.Some? then frqs + [top.value] else frqs, from, i + 1)
  {
    var more := if top.Some? then frqs + [top.value] else frqs;
    assert InRange(from - i, from, i + 1);
    forall d | d in more ensures TopsASlot(offered, d, from, i + 1) {
      if d in frqs {
        assert TopsASlot(offered, d, from, i);
        var k :| InRange(k, from, i) && IsTop(Accepted(offered[k], MAX_WORDS), Some(d));
        assert InRange(k, from, i + 1);
      }
    }
    forall k | InRange(k, from, i + 1)
      ensures exists t :: IsTop(Accepted(offered[k], MAX_WORDS), t) && (t.Some? ==> t.value in more)
    {
      if k != from - i {
        assert InRange(k, from, i);
      }
    }
  }

  lemma LastSlot(offered: seq<seq<string>>, frqs: seq<Data>, from: int, i: nat, lastN: nat)
    requires -1 <= from < |offered| && AreTops(offered, frqs, from, i)
    requires i <= lastN && (i == lastN || from - i < 0)
    ensures AreTops(offered, frqs, from, lastN)
  {
    assert forall k :: InRange(k, from, lastN) <==> InRange(k, from, i);
    forall d | d in frqs ensures TopsASlot(offered, d, from, lastN) {
      assert TopsASlot(offered, d, from, i);
    }
  }

  /** `r` answers a query for the slots from `from` back, at most `lastN` of them. */
  ghost predicate Answers(offered: seq<seq<string>>, r: Option<Data>, from: int, lastN: nat)
    requires -1 <= from < |offered|
  {
    match r
    case None => forall k :: InRange(k, from, lastN) ==> Accepted(offered[k], MAX_WORDS) == []
    case Some(d) =>
      && (exists k :: InRange(k, from, lastN) && Tallies(offered[k], d))
      && (forall k, w :: InRange(k, from, lastN) ==> Count(Accepted(offered[k], MAX_WORDS), w) <= d.count)
  }

  /**
   `r` answers a query for `lastN` slots, `back` slots back from the newest one: none if those slots counted
   nothing, and otherwise a word with its exact count in one of them that no word exceeds in any of them.
   */
  ghost predicate AnswersQuery(offered: seq<seq<string>>, r: Option<Data>, back: nat, lastN: nat) {
    var n := |offered|;
    match r
    case None => forall k :: 0 <= k < n && back <= n - 1 - k < back + lastN ==> Accepted(offered[k], 1000) == []
    case Some(d) =>
      && (exists k :: 0 <= k < n && back <= n - 1 - k < back + lastN
            && Count(Accepted(offered[k], 1000), d.word) == d.count > 0)
      && (forall k, w :: 0 <= k < n && back <= n - 1 - k < back + lastN ==>
            Count(Accepted(offered[k], 1000), w) <= d.count)
  }

  lemma QueryMeans(offered: seq<seq<string>>, frqs: seq<Data>, r: Option<Data>, from: int, back: nat, lastN: nat)
    requires -1 <= from < |offered| && AreTops(offered, frqs, from, lastN) && IsFirst(frqs, r)
    requires from == if back < |offered| then |offered| - 1 - back else -1
    ensures AnswersQuery(offered, r, back, lastN)
  {
    AnswerMeans(offered, frqs, r, from, lastN);
    var n := |offered|;
    assert forall k :: 0 <= k < n && back <= n - 1 - k < back + lastN ==> InRange(k, from, lastN);
    if r.Some? {
      var k :| InRange(k, from, lastN) && Tallies(offered[k], r.value);
      assert 0 <= k < n && back <= n - 1 - k < back + lastN;
    }
  }

  /** A largest entry among the top words of the slots is an answer. */
  lemma AnswerMeans(offered: seq<seq<string>>, frqs: seq<Data>, r: Option<Data>, from: int, lastN: nat)
    requires -1 <= from < |offered| && AreTops(offered, frqs, from, lastN) && IsFirst(frqs, r)
    ensures Answers(offered, r, from, lastN)
  {
    if r.Some? {
      assert TopsASlot(offered, r.value, from, lastN);
      forall k, w | InRange(k, from, lastN)
        ensures Count(Accepted(offered[k], MAX_WORDS), w) <= r.value.count
      {
        var top :| IsTop(Accepted(offered[k], MAX_WORDS), top) && (top.Some? ==> top.value in frqs);
      }
    }
  }

  /** `r` is an entry of `frqs` with the largest count, if there is one. */
  ghost predicate IsFirst(frqs: seq<Data>, r: Option<Data>) {
    && (r == None <==> frqs == [])
    && (r.Some? ==> r.value in frqs && forall d :: d in frqs ==> d.count <= r.value.count)
  }

  /** The end of `processTask`: sort by `Less` and take the first entry. */
  method First(frqs: seq<Data>) returns (r: Option<Data>)
    ensures IsFirst(frqs, r)
  {
    if |frqs| == 0 {
      return None;
    }
    var sorted := frqs;
    if |frqs| > 1 {
      sorted := Sort(frqs);
    }
    TopOfSorted(frqs, sorted);
    return Some(sorted[0]);
  }

  /** max(0, offset) slots back from the last of `n`, or -1. */
  function QueryStart(n: nat, offset: int): (r: int)
    requires n > 0
    ensures -1 <= r < n
  {
    if offset <= 0 then n - 1 else if offset >= n then -1 else n - 1 - offset
  }

  predicate InRange(k: int, from: int, lastN: nat) {
    0 <= k && from - lastN < k <= from
  }

  lemma TopOfSorted(all: seq<Data>, sorted: seq<Data>)
    requires multiset(all) == multiset(sorted) && SortedByLess(sorted) && sorted != []
    ensures sorted[0] in all && forall d :: d in all ==> d.count <= sorted[0].count
  {
    assert sorted[0] in multiset(sorted);
    forall d | d in all ensures d.count <= sorted[0].count {
      assert d in multiset(sorted);
      var j :| 0 <= j < |sorted| && sorted[j] == d;
      if j > 0 { assert !Less(Some(sorted[j]), Some(sorted[0])); }
    }
  }

  // ----- whole runs of the window

  /** The words offered in each slot after `es`. */
  function WindowAfter(es: seq<Happening>): (r: seq<seq<string>>)
    ensures r != []
  {
    if es == [] then [[]] else WindowStep(WindowAfter(es[..|es| - 1]), es[|es| - 1])
  }

  /** The words of a run, second by second. */
  function Seconds(es: seq<Happening>): (r: seq<seq<string>>)
    ensures r != []
  {
    if es == [] then [[]]
    else
      NextSeconds(Seconds(es[..|es| - 1]), es[|es| - 1])
  }

  function NextSeconds(before: seq<seq<string>>, e: Happening): (r: seq<seq<string>>)
    requires before != []
    ensures r != []
  {
    match e
    case Second => before + [[]]
    case Word(word) => before[..|before| - 1] + [before[|before| - 1] + [word]]
  }

  function LastSlots(seconds: seq<seq<string>>): seq<seq<string>> {
    if |seconds| <= 60 then seconds else seconds[|seconds| - 60..]
  }

  lemma NextLastSlots(before: seq<seq<string>>, e: Happening)
    requires before != []
    ensures LastSlots(before) != [] && WindowStep(LastSlots(before), e) == LastSlots(NextSeconds(before, e))
  {
    var last, now := LastSlots(before), NextSeconds(before, e);
    var d := |before| - |last|;
    if e.Word? {
      assert |now| == |before| && |LastSlots(now)| == |last|;
      assert forall k :: 0 <= k < |last| - 1 ==> last[k] == before[d + k] && LastSlots(now)[k] == now[d + k];
    }
  }

  /** The window always holds the words of the last 60 seconds, second by second, and nothing else. */
  lemma {:induction false} WindowIsLastSeconds(es: seq<Happening>)
    ensures WindowAfter(es) == LastSlots(Seconds(es))
  {
    if es != [] {
      WindowIsLastSeconds(es[..|es| - 1]);
      NextLastSlots(Seconds(es[..|es| - 1]), es[|es| - 1]);
    }
  }

  function WordsOf(es: seq<Happening>): seq<string> {
    if es == [] then []
    else WordsOf(es[..|es| - 1]) + if es[|es| - 1].Word? then [es[|es| - 1].word] else []
  }

  function Ticks(es: seq<Happening>): nat {
    if es == [] then 0 else Ticks(es[..|es| - 1]) + if es[|es| - 1].Second? then 1 else 0
  }

  function Flat(parts: seq<seq<string>>): seq<string> {
    if parts == [] then [] else Flat(parts[..|parts| - 1]) + parts[|parts| - 1]
  }

  /** The seconds cut the words of the run, in their order, at the ticks. */
  lemma {:induction false} SecondsCutWords(es: seq<Happening>)
    ensures Flat(Seconds(es)) == WordsOf(es) && |Seconds(es)| == Ticks(es) + 1
  {
    if es == [] {
      assert Flat([[]]) == Flat([]) + [];
    } else {
      var before, e := Seconds(es[..|es| - 1]), es[|es| - 1];
      var n := |before| - 1;
      SecondsCutWords(es[..|es| - 1]);
      if e.Second? {
        assert (before + [[]])[..n + 1] == before;
      } else {
        var now := before[..n] + [before[n] + [e.word]];
        assert now[..n] == before[..n];
        assert Flat(now) == Flat(before[..n]) + (before[n] + [e.word]) == Flat(before) + [e.word];
      }
    }
  }
}
