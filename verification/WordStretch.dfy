/**
 What the scan finds, without the scan: a stretch of text is a greedy spelling of a word, and the scan masks
 the stretches from left to right, skipping what begins inside one.
 */
module WordStretch {
  import opened Common
  import opened WordScan

  ghost predicate Extended(words: set<string>, p: string) {
    exists w :: w in words && p <= w
  }

  /**
   The places `at` spell the word `w` greedily: no shorter word of two or more runes ends before, and no rune
   that was passed over would have led on towards any word.
   */
  ghost predicate GreedySpells(words: set<string>, text: string, w: string, at: seq<nat>) {
    && w in words && |w| >= 2 && Spells(text, w, at)
    && (forall m :: NoWordYet(words, w, m))
    && (forall m, p :: PassedOver(words, text, w, at, m, p))
  }

  /** The first `m` runes of `w`, two or more but not all, are no word. */
  ghost predicate NoWordYet(words: set<string>, w: string, m: int) {
    2 <= m < |w| ==> w[..m] !in words
  }

  /** The rune at `p`, between the places of rune `m - 1` and rune `m` of `w`, leads nowhere. */
  ghost predicate PassedOver(words: set<string>, text: string, w: string, at: seq<nat>, m: int, p: int)
    requires Spells(text, w, at)
  {
    1 <= m < |w| && at[m - 1] < p < at[m] ==> !Extended(words, w[..m] + [text[p]])
  }

  /** A word is spelled greedily from `i` to `j`. */
  ghost predicate Stretch(words: set<string>, text: string, i: nat, j: nat) {
    exists w, at :: GreedySpells(words, text, w, at) && at[0] == i && at[|at| - 1] == j
  }

  // ----- a match is a stretch

  /** The scan has come to `path` by the places `at` and looks at the text from `j` on. */
  ghost predicate OnTheWay(words: set<string>, text: string, path: string, at: seq<nat>, j: nat) {
    && |path| >= 1 && Spells(text, path, at) && at[|at| - 1] < j <= |text|
    && (forall m :: NoWordYet(words, path, m)) && (|path| >= 2 ==> path !in words)
    && (forall m, p :: PassedOver(words, text, path, at, m, p))
    && (forall p :: at[|at| - 1] < p < j ==> !Extended(words, path + [text[p]]))
  }

  /** The next rune continues the path. */
  lemma Follow(words: set<string>, text: string, path: string, at: seq<nat>, j: nat)
    requires OnTheWay(words, text, path, at, j) && j < |text|
    ensures var w, at' := path + [text[j]], at + [j];
      && Spells(text, w, at')
      && (forall m :: NoWordYet(words, w, m))
      && (forall m, p :: PassedOver(words, text, w, at', m, p))
  {
    var w, at' := path + [text[j]], at + [j];
    forall m ensures NoWordYet(words, w, m) {
      assert NoWordYet(words, path, m);
      assert 0 <= m <= |path| ==> w[..m] == path[..m];
      assert path[..|path|] == path;
    }
    forall m, p ensures PassedOver(words, text, w, at', m, p) {
      assert PassedOver(words, text, path, at, m, p);
      assert 0 <= m <= |path| ==> w[..m] == path[..m];
      assert path[..|path|] == path;
    }
  }

  lemma {:induction false} MatchIsStretch(words: set<string>, text: string, path: string, at: seq<nat>, j: nat)
    requires OnTheWay(words, text, path, at, j) && MatchEnd(words, text, path, j).Some?
    ensures Stretch(words, text, at[0], MatchEnd(words, text, path, j).value)
    decreases |text| - j
  {
    var w, at' := path + [text[j]], at + [j];
    if IsPath(words, w) {
      Follow(words, text, path, at, j);
      if w in words {
        assert GreedySpells(words, text, w, at');
      } else {
        MatchIsStretch(words, text, w, at', j + 1);
      }
    } else {
      MatchIsStretch(words, text, path, at, j + 1);
    }
  }

  // ----- a stretch is a match

  /** Between two places of a greedy spelling the scan stays where it is. */
  lemma {:induction false} StretchFollowed(words: set<string>, text: string, w: string, at: seq<nat>, m: nat, p: nat)
    requires GreedySpells(words, text, w, at) && 1 <= m < |w| && at[m - 1] < p <= at[m]
    ensures MatchEnd(words, text, w[..m], p) == Some(at[|at| - 1])
    decreases |text| - p
  {
    if p < at[m] {
      assert PassedOver(words, text, w, at, m, p);
      assert !IsPath(words, w[..m] + [text[p]]);
      StretchFollowed(words, text, w, at, m, p + 1);
    } else {
      assert w[..m] + [text[p]] == w[..m + 1] && w[..m + 1] <= w;
      if m + 1 < |w| {
        assert NoWordYet(words, w, m + 1);
        StretchFollowed(words, text, w, at, m + 1, p + 1);
      } else {
        assert w[..m + 1] == w;
      }
    }
  }

  /** Exactly where a match that starts at `i` ends. */
  lemma MatchIffStretch(words: set<string>, text: string, i: nat, j: nat)
    requires i < |text|
    ensures MatchFrom(words, text, i) == Some(j) <==> Stretch(words, text, i, j)
  {
    if MatchFrom(words, text, i) == Some(j) {
      assert OnTheWay(words, text, [text[i]], [i], i + 1);
      MatchIsStretch(words, text, [text[i]], [i], i + 1);
    }
    if Stretch(words, text, i, j) {
      var w, at :| GreedySpells(words, text, w, at) && at[0] == i && at[|at| - 1] == j;
      assert w[..1] == [text[i]] && w[..1] <= w;
      StretchFollowed(words, text, w, at, 1, i + 1);
    }
  }

  // ----- the scan

  /** Where something begins and where it ends. */
  type Reach = (nat, nat) -> bool

  ghost function Stretches(words: set<string>, text: string): Reach {
    (i: nat, j: nat) => Stretch(words, text, i, j)
  }

  /** `ivs` are found by `reach`, from left to right, and nothing that it finds begins outside them from `s` on. */
  ghost predicate Tiles(reach: Reach, s: nat, ivs: seq<(nat, nat)>) {
    && (forall m :: 0 <= m < |ivs| ==> s <= ivs[m].0 && reach(ivs[m].0, ivs[m].1))
    && (forall m, n :: 0 <= m < n < |ivs| ==> ivs[m].1 < ivs[n].0)
    && (forall i: nat, j: nat {:trigger Inside(reach, s, ivs, i, j)} :: Inside(reach, s, ivs, i, j))
  }

  ghost predicate Inside(reach: Reach, s: nat, ivs: seq<(nat, nat)>, i: nat, j: nat) {
    s <= i && reach(i, j) ==> Covered(ivs, i)
  }

  lemma CoveredCons(iv: (nat, nat), rest: seq<(nat, nat)>, i: int)
    ensures Covered([iv] + rest, i) <==> iv.0 <= i <= iv.1 || Covered(rest, i)
  {
    var ivs := [iv] + rest;
    if iv.0 <= i <= iv.1 { assert ivs[0] == iv; }
    if Covered(rest, i) {
      var n :| 0 <= n < |rest| && rest[n].0 <= i <= rest[n].1;
      assert ivs[n + 1] == rest[n];
    }
    if Covered(ivs, i) {
      var n :| 0 <= n < |ivs| && ivs[n].0 <= i <= ivs[n].1;
      assert n > 0 ==> rest[n - 1] == ivs[n];
    }
  }

  /** Nothing is found at the place before `s`. */
  lemma SkipPlace(reach: Reach, before: nat, s: nat, ivs: seq<(nat, nat)>)
    requires s == before + 1 && forall j: nat :: !reach(before, j)
    ensures Tiles(reach, before, ivs) <==> Tiles(reach, s, ivs)
  {
    if Tiles(reach, before, ivs) {
      forall m | 0 <= m < |ivs| ensures s <= ivs[m].0 { assert reach(ivs[m].0, ivs[m].1); }
      forall i: nat, j: nat ensures Inside(reach, s, ivs, i, j) { assert Inside(reach, before, ivs, i, j); }
    }
    if Tiles(reach, s, ivs) {
      forall i: nat, j: nat ensures Inside(reach, before, ivs, i, j) { assert Inside(reach, s, ivs, i, j); }
    }
  }

  lemma FirstTile(reach: Reach, s: nat, ivs: seq<(nat, nat)>, j: nat, after: nat)
    requires reach(s, j) && after == j + 1 && (forall e: nat :: reach(s, e) ==> e == j)
    requires (forall i: nat, e: nat :: reach(i, e) ==> i < e) && Tiles(reach, s, ivs)
    ensures ivs != [] && ivs[0] == (s, j) && Tiles(reach, after, ivs[1..])
  {
    assert Inside(reach, s, ivs, s, j);
    var m :| 0 <= m < |ivs| && ivs[m].0 <= s <= ivs[m].1;
    assert reach(ivs[0].0, ivs[0].1);
    assert m == 0;
    var rest := ivs[1..];
    assert ivs == [ivs[0]] + rest;
    forall i: nat, e: nat ensures Inside(reach, after, rest, i, e) {
      assert Inside(reach, s, ivs, i, e);
      CoveredCons(ivs[0], rest, i);
    }
  }

  lemma PrependTile(reach: Reach, s: nat, j: nat, after: nat, rest: seq<(nat, nat)>)
    requires reach(s, j) && s < j && after == j + 1 && Tiles(reach, after, rest)
    ensures Tiles(reach, s, [(s, j)] + rest)
  {
    var ivs := [(s, j)] + rest;
    assert forall m :: 1 <= m < |ivs| ==> ivs[m] == rest[m - 1];
    forall i: nat, e: nat ensures Inside(reach, s, ivs, i, e) {
      assert Inside(reach, after, rest, i, e);
      CoveredCons((s, j), rest, i);
    }
  }

  lemma StretchBounds(words: set<string>, text: string, i: nat, j: nat)
    requires Stretch(words, text, i, j)
    ensures i < j < |text|
  {
    var w, at :| GreedySpells(words, text, w, at) && at[0] == i && at[|at| - 1] == j;
  }

  // ----- the scan as a chain of jumps

  /** From left to right, from each start in `ends` to its end. */
  ghost function Chain(ends: map<nat, nat>, n: nat, s: nat): seq<(nat, nat)>
    requires forall i :: i in ends ==> i < ends[i]
    decreases n - s
  {
    if s >= n then []
    else if s in ends then [(s, ends[s])] + Chain(ends, n, ends[s] + 1)
    else Chain(ends, n, s + 1)
  }

  ghost predicate Finds(reach: Reach, ends: map<nat, nat>, n: nat) {
    && (forall i :: i in ends ==> i < ends[i] < n)
    && (forall i: nat, j: nat :: reach(i, j) <==> i in ends && ends[i] == j)
  }

  lemma TilesAt(reach: Reach, ends: map<nat, nat>, n: nat, s: nat, ivs: seq<(nat, nat)>)
    requires Finds(reach, ends, n)
    ensures s !in ends ==> (Tiles(reach, s, ivs) <==> Tiles(reach, s + 1, ivs))
    ensures s in ends ==>
      (Tiles(reach, s, ivs) <==> ivs != [] && ivs[0] == (s, ends[s]) && Tiles(reach, ends[s] + 1, ivs[1..]))
  {
    if s in ends {
      var j := ends[s];
      assert reach(s, j);
      if Tiles(reach, s, ivs) { FirstTile(reach, s, ivs, j, j + 1); }
      if ivs != [] && ivs[0] == (s, j) && Tiles(reach, j + 1, ivs[1..]) {
        assert ivs == [(s, j)] + ivs[1..];
        PrependTile(reach, s, j, j + 1, ivs[1..]);
      }
    } else {
      SkipPlace(reach, s, s + 1, ivs);
    }
  }

  lemma TilesAtEnd(reach: Reach, ends: map<nat, nat>, n: nat, ivs: seq<(nat, nat)>)
    requires Finds(reach, ends, n)
    ensures Tiles(reach, n, ivs) <==> ivs == []
  {
    if ivs == [] {
      forall i: nat, j: nat ensures Inside(reach, n, ivs, i, j) {}
    } else {
      assert !(n <= ivs[0].0 && reach(ivs[0].0, ivs[0].1));
    }
  }

  lemma {:induction false} ChainTiles(reach: Reach, ends: map<nat, nat>, n: nat, s: nat, ivs: seq<(nat, nat)>)
    requires s <= n && Finds(reach, ends, n)
    ensures Chain(ends, n, s) == ivs <==> Tiles(reach, s, ivs)
    decreases n - s
  {
    if s == n {
      TilesAtEnd(reach, ends, n, ivs);
    } else {
      TilesAt(reach, ends, n, s, ivs);
      if s !in ends {
        ChainTiles(reach, ends, n, s + 1, ivs);
      } else if ivs != [] {
        ChainTiles(reach, ends, n, ends[s] + 1, ivs[1..]);
        assert ivs == [ivs[0]] + ivs[1..];
      }
    }
  }

  ghost function Ends(words: set<string>, text: string): (r: map<nat, nat>)
    ensures forall i :: i in r ==> i < r[i] < |text|
  {
    map i: nat | i < |text| && MatchFrom(words, text, i).Some? :: MatchFrom(words, text, i).value
  }

  lemma EndsAt(words: set<string>, text: string, s: nat)
    requires s < |text|
    ensures MatchFrom(words, text, s) == if s in Ends(words, text) then Some(Ends(words, text)[s]) else None
  {}

  lemma {:induction false} ScanIsChain(words: set<string>, text: string, ends: map<nat, nat>, s: nat)
    requires ends == Ends(words, text)
    ensures Intervals(words, text, s) == Chain(ends, |text|, s)
    decreases |text| - s
  {
    if s < |text| {
      EndsAt(words, text, s);
      ScanIsChain(words, text, ends, if s in ends then ends[s] + 1 else s + 1);
    }
  }

  lemma StretchesFindEnds(words: set<string>, text: string)
    ensures Finds(Stretches(words, text), Ends(words, text), |text|)
  {
    var reach, ends := Stretches(words, text), Ends(words, text);
    forall i: nat, j: nat ensures reach(i, j) <==> i in ends && ends[i] == j {
      if i < |text| { MatchIffStretch(words, text, i, j); }
      if Stretch(words, text, i, j) { StretchBounds(words, text, i, j); }
    }
  }

  /** The scan masks these stretches and no others. */
  lemma ScanIffStretches(words: set<string>, text: string, ivs: seq<(nat, nat)>)
    ensures Intervals(words, text, 0) == ivs <==> Tiles(Stretches(words, text), 0, ivs)
  {
    StretchesFindEnds(words, text);
    ScanIsChain(words, text, Ends(words, text), 0);
    ChainTiles(Stretches(words, text), Ends(words, text), |text|, 0, ivs);
  }

  /** `out` is `text` with exactly the runes of `ivs` hidden. */
  ghost predicate HiddenBy(ivs: seq<(nat, nat)>, text: string, out: string) {
    |out| == |text| && forall k :: 0 <= k < |text| ==> out[k] == if Covered(ivs, k) then '*' else text[k]
  }

  /** Exactly the runes of the stretches are hidden, and all others are kept. */
  ghost predicate Hidden(words: set<string>, text: string, out: string) {
    exists ivs :: Tiles(Stretches(words, text), 0, ivs) && HiddenBy(ivs, text, out)
  }

  /** Masking hides exactly the runes of the stretches and keeps all others. */
  lemma MaskedIffHidden(words: set<string>, text: string, out: string)
    ensures out == Masked(words, text) <==> Hidden(words, text, out)
  {
    var ivs := Intervals(words, text, 0);
    ScanIffStretches(words, text, ivs);
    if out == Masked(words, text) { assert HiddenBy(ivs, text, out); }
    if Hidden(words, text, out) {
      var other :| Tiles(Stretches(words, text), 0, other) && HiddenBy(other, text, out);
      ScanIffStretches(words, text, other);
    }
  }

  /** A text is dirty exactly when it has a stretch. */
  lemma DirtyIffStretch(words: set<string>, text: string)
    ensures Intervals(words, text, 0) != [] <==> exists i: nat, j: nat :: Stretch(words, text, i, j)
  {
    var ivs := Intervals(words, text, 0);
    ScanIffStretches(words, text, ivs);
    if ivs != [] { assert Stretches(words, text)(ivs[0].0, ivs[0].1); }
    forall i: nat, j: nat | Stretch(words, text, i, j) ensures ivs != [] {
      assert Inside(Stretches(words, text), 0, ivs, i, j);
    }
  }
}
