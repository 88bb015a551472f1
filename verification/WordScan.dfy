/**
 The dirty-word scan as a pure function of the dictionary and the text, and what it
 guarantees.  A dictionary is a set of words; a trie node is the string that leads to it.
 */
module WordScan {
  import opened Common

  const MASK: char := '*'

  /** `p` leads to a node of the trie that holds exactly `words`. */
  ghost predicate IsPath(words: set<string>, p: string) {
    p == [] || exists w :: w in words && p <= w
  }

  /** From the node `path`, skip runes without an edge and stop at the first node that ends a word. */
  ghost function MatchEnd(words: set<string>, text: string, path: string, j: nat): (r: Option<nat>)
    ensures r.Some? ==> j <= r.value < |text|
    decreases |text| - j
  {
    if j >= |text| then None
    else if IsPath(words, path + [text[j]]) then
      if path + [text[j]] in words then Some(j) else MatchEnd(words, text, path + [text[j]], j + 1)
    else MatchEnd(words, text, path, j + 1)
  }

  /** The last rune of the match that starts at `i`, if there is one. */
  ghost function MatchFrom(words: set<string>, text: string, i: nat): (r: Option<nat>)
    requires i < |text|
    ensures r.Some? ==> i < r.value < |text|
  {
    if IsPath(words, [text[i]]) then MatchEnd(words, text, [text[i]], i + 1) else None
  }

  /** The masked intervals, left to right, of a scan that starts at `i`. */
  ghost function Intervals(words: set<string>, text: string, i: nat): seq<(nat, nat)>
    decreases |text| - i
  {
    if i >= |text| then []
    else match MatchFrom(words, text, i)
      case None => Intervals(words, text, i + 1)
      case Some(j) => [(i, j)] + Intervals(words, text, j + 1)
  }

  ghost predicate Covered(ivs: seq<(nat, nat)>, k: int) {
    exists m :: 0 <= m < |ivs| && ivs[m].0 <= k <= ivs[m].1
  }

  ghost function Mask(text: string, ivs: seq<(nat, nat)>): (r: string)
    ensures |r| == |text|
  {
    seq(|text|, k requires 0 <= k < |text| => if Covered(ivs, k) then MASK else text[k])
  }

  ghost function Masked(words: set<string>, text: string): (r: string)
    ensures |r| == |text|
  {
    Mask(text, Intervals(words, text, 0))
  }

  /** The positions `at` spell `w` in `text`, from left to right. */
  ghost predicate Spells(text: string, w: string, at: seq<nat>) {
    && |at| == |w|
    && (forall m :: 0 <= m < |at| ==> at[m] < |text| && text[at[m]] == w[m])
    && (forall m, n :: 0 <= m < n < |at| ==> at[m] < at[n])
  }

  /** Some dictionary word of at least two runes is a subsequence of text[i..j] using both ends. */
  ghost predicate HoldsWord(words: set<string>, text: string, i: nat, j: nat) {
    exists w, at ::
      && w in words && |w| >= 2 && Spells(text, w, at)
      && at[0] == i && at[|at| - 1] == j
  }

  ghost predicate OccursAt(w: string, text: string, i: nat) {
    i + |w| <= |text| && text[i..i + |w|] == w
  }

  // ----- structure of the masked intervals

  lemma {:induction false} MatchEndHoldsWord(words: set<string>, text: string, path: string, at: seq<nat>, j: nat)
    requires |path| >= 1 && Spells(text, path, at) && at[|at| - 1] < j
    requires MatchEnd(words, text, path, j).Some?
    ensures HoldsWord(words, text, at[0], MatchEnd(words, text, path, j).value)
    decreases |text| - j
  {
    if IsPath(words, path + [text[j]]) {
      var w, at' := path + [text[j]], at + [j];
      assert Spells(text, w, at');
      if w !in words {
        MatchEndHoldsWord(words, text, w, at', j + 1);
      }
    } else {
      MatchEndHoldsWord(words, text, path, at, j + 1);
    }
  }

  ghost predicate WellPlaced(words: set<string>, text: string, i: nat, ivs: seq<(nat, nat)>) {
    && (forall m :: 0 <= m < |ivs| ==>
          && i <= ivs[m].0 < ivs[m].1 < |text|
          && HoldsWord(words, text, ivs[m].0, ivs[m].1))
    && (forall m, n :: 0 <= m < n < |ivs| ==> ivs[m].1 < ivs[n].0)
  }

  lemma WellPlacedWeaken(words: set<string>, text: string, i: nat, ivs: seq<(nat, nat)>)
    requires WellPlaced(words, text, i + 1, ivs)
    ensures WellPlaced(words, text, i, ivs)
  {}

  lemma WellPlacedCons(words: set<string>, text: string, i: nat, j: nat, rest: seq<(nat, nat)>)
    requires i < j < |text| && HoldsWord(words, text, i, j) && WellPlaced(words, text, j + 1, rest)
    ensures WellPlaced(words, text, i, [(i, j)] + rest)
  {
    var ivs := [(i, j)] + rest;
    assert forall m :: 1 <= m < |ivs| ==> ivs[m] == rest[m - 1];
  }

  /** Masked intervals are disjoint, increasing and not empty, and each one hides a whole word of two or more runes. */
  lemma {:induction false} IntervalsSound(words: set<string>, text: string, i: nat)
    ensures WellPlaced(words, text, i, Intervals(words, text, i))
    decreases |text| - i
  {
    if i < |text| {
      match MatchFrom(words, text, i)
      case None =>
        IntervalsSound(words, text, i + 1);
        WellPlacedWeaken(words, text, i, Intervals(words, text, i + 1));
      case Some(j) =>
        MatchEndHoldsWord(words, text, [text[i]], [i], i + 1);
        IntervalsSound(words, text, j + 1);
        WellPlacedCons(words, text, i, j, Intervals(words, text, j + 1));
    }
  }

  // ----- contiguous occurrences are always hit

  lemma {:induction false} OccurrenceMatches(words: set<string>, text: string, i: nat, w: string, k: nat)
    requires w in words && OccursAt(w, text, i) && 1 <= k < |w|
    ensures MatchEnd(words, text, w[..k], i + k).Some?
    decreases |w| - k
  {
    assert text[i + k] == text[i..i + |w|][k] == w[k];
    assert w[..k] + [w[k]] == w[..k + 1];
    if w[..k + 1] !in words {
      assert k + 1 < |w| by { assert w[..|w|] == w; }
      OccurrenceMatches(words, text, i, w, k + 1);
    }
  }

  lemma {:induction false} OccurrenceCovered(words: set<string>, text: string, s: nat, i: nat, w: string)
    requires w in words && |w| >= 2 && OccursAt(w, text, i) && s <= i
    ensures Covered(Intervals(words, text, s), i)
    decreases |text| - s
  {
    var ivs := Intervals(words, text, s);
    match MatchFrom(words, text, s)
    case None =>
      if s == i {
        assert text[i] == text[i..i + |w|][0] == w[0];
        assert w[..1] == [text[i]];
        OccurrenceMatches(words, text, i, w, 1);
        assert false;
      }
      OccurrenceCovered(words, text, s + 1, i, w);
    case Some(j) =>
      if i <= j {
        assert ivs[0] == (s, j);
      } else {
        OccurrenceCovered(words, text, j + 1, i, w);
        var rest := Intervals(words, text, j + 1);
        var m :| 0 <= m < |rest| && rest[m].0 <= i <= rest[m].1;
        assert ivs[m + 1] == rest[m];
      }
  }

  /** Every contiguous occurrence of a word of two or more runes loses at least its first rune. */
  lemma OccurrenceMasked(words: set<string>, text: string, i: nat, w: string)
    requires w in words && |w| >= 2 && OccursAt(w, text, i)
    ensures Masked(words, text)[i] == MASK
  {
    OccurrenceCovered(words, text, 0, i, w);
  }

  /** No star-free word of two or more runes is left in the output. */
  lemma OutputClean(words: set<string>, text: string, i: nat, w: string)
    requires w in words && |w| >= 2 && MASK !in w
    ensures !OccursAt(w, Masked(words, text), i)
  {
    var out := Masked(words, text);
    if OccursAt(w, out, i) {
      forall k | 0 <= k < |w| ensures text[i + k] == w[k] {
        assert out[i + k] == out[i..i + |w|][k] == w[k];
        assert w[k] in w;
      }
      assert text[i..i + |w|] == w;
      OccurrenceMasked(words, text, i, w);
    }
  }

  // ----- which words matter

  /** The words that can end a match: two or more runes, and no shorter such word in front of them. */
  ghost function Effective(words: set<string>): set<string> {
    set w | w in words && |w| >= 2 && forall k :: 2 <= k < |w| ==> w[..k] !in words
  }

  ghost predicate Open(words: set<string>, path: string) {
    |path| >= 1 && forall k :: 2 <= k <= |path| ==> path[..k] !in words
  }

  lemma EffectivePrefix(words: set<string>, w: string, k: nat) returns (u: string)
    requires w in words && 2 <= k <= |w| && forall m :: 2 <= m < k ==> w[..m] !in words
    ensures u in Effective(words) && u <= w && |u| >= k
    decreases |w| - k
  {
    if w[..k] in words {
      u := w[..k];
      forall m | 2 <= m < |u| ensures u[..m] !in words { assert u[..m] == w[..m]; }
    } else {
      assert k < |w| by { assert w[..|w|] == w; }
      u := EffectivePrefix(words, w, k + 1);
    }
  }

  lemma OpenStep(words: set<string>, path: string, c: char)
    requires Open(words, path)
    ensures IsPath(words, path + [c]) <==> IsPath(Effective(words), path + [c])
    ensures path + [c] in words <==> path + [c] in Effective(words)
    ensures path + [c] !in words ==> Open(words, path + [c])
  {
    var p := path + [c];
    forall k | 2 <= k <= |path| ensures p[..k] !in words { assert p[..k] == path[..k]; }
    assert p[..|p|] == p;
    if IsPath(words, p) {
      var w :| w in words && p <= w;
      forall k | 2 <= k < |p| ensures w[..k] !in words { assert w[..k] == p[..k]; }
      var u := EffectivePrefix(words, w, |p|);
      assert p <= u;
    }
  }

  lemma {:induction false} EffectiveMatchEnd(words: set<string>, text: string, path: string, j: nat)
    requires Open(words, path)
    ensures MatchEnd(words, text, path, j) == MatchEnd(Effective(words), text, path, j)
    decreases |text| - j
  {
    if j < |text| {
      OpenStep(words, path, text[j]);
      if !IsPath(words, path + [text[j]]) {
        EffectiveMatchEnd(words, text, path, j + 1);
      } else if path + [text[j]] !in words {
        EffectiveMatchEnd(words, text, path + [text[j]], j + 1);
      }
    }
  }

  lemma PathPrefix(words: set<string>, path: string, c: char)
    ensures IsPath(words, path + [c]) ==> IsPath(words, path)
  {
    if IsPath(words, path + [c]) {
      var w :| w in words && path + [c] <= w;
      assert path <= path + [c];
    }
  }

  lemma {:induction false} DeadEnd(words: set<string>, text: string, path: string, j: nat)
    requires path != [] && !IsPath(words, path)
    ensures MatchEnd(words, text, path, j) == None
    decreases |text| - j
  {
    if j < |text| {
      PathPrefix(words, path, text[j]);
      DeadEnd(words, text, path, j + 1);
    }
  }

  lemma EffectiveMatchFrom(words: set<string>, text: string, i: nat)
    requires i < |text|
    ensures MatchFrom(words, text, i) == MatchFrom(Effective(words), text, i)
  {
    var p := [text[i]];
    EffectiveMatchEnd(words, text, p, i + 1);
    if !IsPath(Effective(words), p) {
      DeadEnd(Effective(words), text, p, i + 1);
    } else {
      var w :| w in Effective(words) && p <= w;
      assert w in words;
    }
  }

  /** Words of one rune, and words behind a shorter word of two or more runes, never change the scan. */
  lemma {:induction false} OnlyEffectiveWordsMatter(words: set<string>, text: string, i: nat)
    ensures Intervals(words, text, i) == Intervals(Effective(words), text, i)
    decreases |text| - i
  {
    if i < |text| {
      EffectiveMatchFrom(words, text, i);
      match MatchFrom(words, text, i)
      case None => OnlyEffectiveWordsMatter(words, text, i + 1);
      case Some(j) => OnlyEffectiveWordsMatter(words, text, j + 1);
    }
  }

  /** Inserting an extension of a word of two or more runes, or a one-rune word, changes no scan. */
  lemma RedundantInsert(words: set<string>, w: string, text: string)
    requires |w| <= 1 || exists u :: u in words && |u| >= 2 && u <= w
    ensures Intervals(words + {w}, text, 0) == Intervals(words, text, 0)
    ensures Masked(words + {w}, text) == Masked(words, text)
  {
    var more := words + {w};
    assert Effective(more) == Effective(words) by {
      if |w| > 1 {
        var u :| u in words && |u| >= 2 && u <= w;
        if u != w {
          assert w !in Effective(words) && w !in Effective(more) by { assert w[..|u|] == u; }
          forall v | v in Effective(words) ensures v in Effective(more) {
            assert u <= v ==> v[..|u|] == u;
          }
        }
      }
    }
    OnlyEffectiveWordsMatter(more, text, 0);
    OnlyEffectiveWordsMatter(words, text, 0);
  }

  // ----- what the scan decides, and what it does not promise

  /**
   A text is dirty only if it holds a word of two or more runes as a subsequence, and it is
   certainly dirty if it holds one contiguously.
   */
  lemma DirtyBounds(words: set<string>, text: string)
    ensures Intervals(words, text, 0) != [] ==> exists i: nat, j: nat :: HoldsWord(words, text, i, j)
    ensures (exists w, i: nat :: w in words && |w| >= 2 && OccursAt(w, text, i)) ==> Intervals(words, text, 0) != []
    ensures Intervals(words, text, 0) == [] ==> Masked(words, text) == text
  {
    var ivs := Intervals(words, text, 0);
    IntervalsSound(words, text, 0);
    if ivs != [] { assert HoldsWord(words, text, ivs[0].0, ivs[0].1); }
    forall w, i: nat | w in words && |w| >= 2 && OccursAt(w, text, i) ensures ivs != [] {
      OccurrenceCovered(words, text, 0, i, w);
    }
  }

  /** With the words abc and ad, the scan of abd follows ab and so misses the subsequence ad. */
  lemma GreedyMisses()
    ensures HoldsWord({"abc", "ad"}, "abd", 0, 2)
    ensures Intervals({"abc", "ad"}, "abd", 0) == []
  {
    var words, text: string := {"abc", "ad"}, "abd";
    assert Spells(text, "ad", [0, 2]);
    assert "abc" in words && "a" <= "abc" && "ab" <= "abc";
    assert ['a'] + ['b'] == "ab" && "ab" + ['d'] == "abd";
    assert !IsPath(words, "abd") by { assert forall w :: w in words ==> |w| < 3 || w[2] != 'd'; }
    assert MatchEnd(words, text, "ab", 2) == None;
    assert MatchEnd(words, text, "a", 1) == None;
    assert !IsPath(words, "b") && !IsPath(words, "d") by { assert forall w :: w in words ==> w[0] == 'a'; }
    assert Intervals(words, text, 1) == [] by { assert Intervals(words, text, 2) == []; }
  }

  /** Masking is not idempotent: with abc, ad and be, abed becomes a**d and then ****. */
  lemma NotIdempotent()
    ensures var words := {"abc", "ad", "be"};
      && Masked(words, "abed") == "a**d"
      && Masked(words, "a**d") == "****"
  {
    var words: set<string> := {"abc", "ad", "be"};
    assert "abc" in words && "ad" in words && "be" in words;
    assert "a" <= "abc" && "ab" <= "abc" && "b" <= "be";
    assert IsPath(words, "a") && IsPath(words, "ab") && IsPath(words, "b");
    FirstPass(words);
    SecondPass(words);
  }

  lemma FirstPass(words: set<string>)
    requires words == {"abc", "ad", "be"} && IsPath(words, "a") && IsPath(words, "ab") && IsPath(words, "b")
    ensures Masked(words, "abed") == "a**d"
  {
    var t: string := "abed";
    assert ['a'] + ['b'] == "ab" && "ab" + ['e'] == "abe" && "ab" + ['d'] == "abd" && ['b'] + ['e'] == "be";
    assert !IsPath(words, "abe") && !IsPath(words, "abd") by {
      assert forall w :: w in words ==> |w| < 3 || w[2] == 'c';
    }
    assert !IsPath(words, "d") by { assert forall w :: w in words ==> w[0] != 'd'; }
    assert MatchEnd(words, t, "ab", 3) == None;
    assert MatchEnd(words, t, "ab", 2) == None;
    assert MatchFrom(words, t, 0) == None;
    assert "be" in words && IsPath(words, "be") by { assert "be" <= "be"; }
    assert MatchFrom(words, t, 1) == Some(2);
    assert MatchFrom(words, t, 3) == None;
    assert Intervals(words, t, 3) == [] by { assert Intervals(words, t, 4) == []; }
    assert Intervals(words, t, 0) == [(1, 2)];
    CoveredOne(1, 2);
  }

  lemma SecondPass(words: set<string>)
    requires words == {"abc", "ad", "be"} && IsPath(words, "a")
    ensures Masked(words, "a**d") == "****"
  {
    var t: string := "a**d";
    assert ['a'] + ['*'] == "a*" && ['a'] + ['d'] == "ad";
    assert "ad" in words && IsPath(words, "ad") by { assert "ad" <= "ad"; }
    assert !IsPath(words, "a*") by { assert forall w :: w in words ==> w[1] != '*'; }
    assert MatchEnd(words, t, "a", 3) == Some(3);
    assert MatchEnd(words, t, "a", 2) == Some(3);
    assert MatchFrom(words, t, 0) == Some(3);
    assert Intervals(words, t, 0) == [(0, 3)] by { assert Intervals(words, t, 4) == []; }
    CoveredOne(0, 3);
  }

  lemma CoveredOne(i: nat, j: nat)
    ensures forall k :: Covered([(i, j)], k) <==> i <= k <= j
  {
    forall k | i <= k <= j ensures Covered([(i, j)], k) {
      assert [(i, j)][0] == (i, j);
    }
  }
}
