/**
 When the greedy scan is exact.  It follows the first edge it meets and never goes back, so a detour can
 lose a word.  `Safe` says of a dictionary that every detour leads to a word that needs no more text,
 `Caught` that the text of a detour which loses a word is dirty for another reason.
 */
module WordSafety {
  import opened Common
  import opened WordScan

  /** `u` is a subsequence of `t`. */
  predicate Sub(u: string, t: string) {
    u == [] || (t != [] && (Sub(u, t[1..]) || (u[0] == t[0] && Sub(u[1..], t[1..]))))
  }

  /**
   Where two effective words part after their first rune, whoever follows the branch of `v` can still
   spell a word of that branch with the runes that the rest of `w` offers.
   */
  ghost predicate Safe(words: set<string>) {
    forall v, w, k :: Parts(Effective(words), v, w, k) ==> Rescued(Effective(words), v, w, k)
  }

  ghost predicate Parts(eff: set<string>, v: string, w: string, k: int) {
    v in eff && w in eff && 1 <= k < |v| && k < |w| && v[..k] == w[..k] && v[k] != w[k]
  }

  ghost predicate Rescued(eff: set<string>, v: string, w: string, k: int)
    requires 0 <= k < |v| && k < |w|
  {
    exists u :: u in eff && v[..k + 1] <= u && Sub(u[k + 1..], w[k..])
  }

  // ----- subsequences

  lemma SubTail(u: string, t: string)
    requires u != [] && Sub(u, t)
    ensures Sub(u[1..], t) && t != [] && Sub(u[1..], t[1..])
  {
    if Sub(u, t[1..]) {
      SubTail(u, t[1..]);
    }
  }

  lemma {:induction false} SubTrans(a: string, b: string, c: string)
    requires Sub(a, b) && Sub(b, c)
    ensures Sub(a, c)
    decreases |b| + |c|
  {
    if a != [] {
      if Sub(b, c[1..]) {
        SubTrans(a, b, c[1..]);
      } else if Sub(a, b[1..]) {
        SubTrans(a, b[1..], c[1..]);
      } else {
        SubTrans(a[1..], b[1..], c[1..]);
      }
    }
  }

  lemma {:induction false} SubSelf(u: string)
    ensures Sub(u, u)
  {
    if u != [] { SubSelf(u[1..]); }
  }

  /** The rest of a word that is spelled in a text is a subsequence of the rest of the text. */
  lemma {:induction false} SpellsSub(text: string, w: string, at: seq<nat>, m: nat, s: nat)
    requires Spells(text, w, at) && m <= |w| && s <= |text| && (m < |w| ==> s <= at[m])
    ensures Sub(w[m..], text[s..])
    decreases |text| - s
  {
    if m < |w| {
      assert text[s..][1..] == text[s + 1..] && w[m..][1..] == w[m + 1..];
      if at[m] == s {
        SpellsSub(text, w, at, m + 1, s + 1);
      } else {
        SpellsSub(text, w, at, m, s + 1);
      }
    }
  }

  // ----- a match spells a word, and in a safe dictionary a spelled word gives a match

  lemma {:induction false} MatchSpells(words: set<string>, text: string, path: string, j: nat) returns (u: string)
    requires MatchEnd(words, text, path, j).Some?
    ensures u in words && path <= u && Sub(u[|path|..], text[j..])
    decreases |text| - j
  {
    var p := path + [text[j]];
    assert text[j..][1..] == text[j + 1..];
    if IsPath(words, p) && p in words {
      u := p;
      assert u[|path|..] == [text[j]];
    } else if IsPath(words, p) {
      u := MatchSpells(words, text, p, j + 1);
      assert u[|path|..][0] == text[j] && u[|path|..][1..] == u[|p|..];
    } else {
      u := MatchSpells(words, text, path, j + 1);
    }
  }

  /** No effective word is a proper prefix of another. */
  lemma EffectiveApart(words: set<string>, v: string, w: string)
    requires v in Effective(words) && w in Effective(words) && v <= w
    ensures v == w
  {
    assert w[..|v|] == v;
  }

  lemma {:induction false} SafeMatches(words: set<string>, text: string, path: string, j: nat, w: string)
    requires Safe(words) && w in Effective(words) && 1 <= |path| < |w| && path <= w && j <= |text|
    requires Sub(w[|path|..], text[j..])
    ensures MatchEnd(Effective(words), text, path, j).Some?
    decreases |text| - j
  {
    var eff, k := Effective(words), |path|;
    var rest := w[k..];
    SubTail(rest, text[j..]);
    assert text[j..][1..] == text[j + 1..] && rest[1..] == w[k + 1..];
    var c := text[j];
    var p := path + [c];
    if !IsPath(eff, p) {
      assert w[..k + 1] == path + [w[k]];
      assert w[..k + 1] <= w;
      SafeMatches(words, text, path, j + 1, w);
    } else if p !in eff {
      if w[k] == c {
        assert p == w[..k + 1];
        assert p < w by { assert p != w; }
        SafeMatches(words, text, p, j + 1, w);
      } else {
        var u := Detour(words, path, c, w);
        SubTrans(u[k + 1..], rest, text[j + 1..]);
        SafeMatches(words, text, p, j + 1, u);
      }
    }
  }

  /** The word that rescues a scan which left `w` for the edge `c`. */
  lemma Detour(words: set<string>, path: string, c: char, w: string) returns (u: string)
    requires Safe(words) && w in Effective(words) && 1 <= |path| < |w| && path <= w && w[|path|] != c
    requires IsPath(Effective(words), path + [c]) && path + [c] !in Effective(words)
    ensures u in Effective(words) && path + [c] <= u && |u| > |path| + 1
    ensures Sub(u[|path| + 1..], w[|path|..])
  {
    var eff, k, p := Effective(words), |path|, path + [c];
    var v :| v in eff && p <= v;
    assert v[..k] == path == w[..k] && v[k] == p[k] == c;
    assert Parts(eff, v, w, k);
    u :| u in eff && v[..k + 1] <= u && Sub(u[k + 1..], w[k..]);
    assert v[..k + 1] == p;
    assert u != p;
  }

  // ----- the exact condition

  /** Wherever a word of two or more runes starts as a subsequence, the scan finds a match from there. */
  ghost predicate NeverMisses(words: set<string>) {
    forall text, i: nat, j: nat :: i < |text| && HoldsWord(words, text, i, j) ==> MatchFrom(words, text, i).Some?
  }

  lemma SafeNeverMisses(words: set<string>, text: string, i: nat, j: nat)
    requires Safe(words) && i < |text| && HoldsWord(words, text, i, j)
    ensures MatchFrom(words, text, i).Some?
  {
    var w, at :| w in words && |w| >= 2 && Spells(text, w, at) && at[0] == i && at[|at| - 1] == j;
    var u := EffectivePrefix(words, w, 2);
    assert Spells(text, u, at[..|u|]);
    SpellsSub(text, u, at[..|u|], 1, i + 1);
    assert u[..1] == [text[i]];
    SafeMatches(words, text, [text[i]], i + 1, u);
    EffectiveMatchFrom(words, text, i);
    assert IsPath(Effective(words), [text[i]]) by { assert [text[i]] <= u; }
  }

  /** Up to the place where they part, the scan follows `v` and `w` alike. */
  lemma {:induction false} FollowsPath(words: set<string>, text: string, v: string, m: nat, k: nat)
    requires v in Effective(words) && 1 <= m <= k < |v| && k < |text| && text[..k] == v[..k]
    ensures MatchEnd(Effective(words), text, v[..m], m) == MatchEnd(Effective(words), text, v[..k], k)
    decreases k - m
  {
    if m < k {
      var p := v[..m + 1];
      assert text[m] == text[..k][m] == v[..k][m] == v[m];
      assert v[..m] + [text[m]] == p && p <= v;
      if p in Effective(words) { EffectiveApart(words, p, v); }
      FollowsPath(words, text, v, m + 1, k);
    }
  }

  /** The text that spells `w` with one more rune: the branch of `v` where the two part. */
  function DetourText(v: string, w: string, k: nat): (t: string)
    requires k < |v| && k < |w|
    ensures |t| == |w| + 1
  {
    w[..k] + [v[k]] + w[k..]
  }

  lemma DetourHoldsWord(words: set<string>, v: string, w: string, k: nat)
    requires Parts(Effective(words), v, w, k)
    ensures HoldsWord(words, DetourText(v, w, k), 0, |w|)
  {
    var t := DetourText(v, w, k);
    var at: seq<nat> := seq(|w|, m requires 0 <= m < |w| => if m < k then m else m + 1);
    assert Spells(t, w, at);
  }

  lemma {:induction false} DetourMatch(words: set<string>, v: string, w: string, k: nat)
    requires Parts(Effective(words), v, w, k) && MatchFrom(words, DetourText(v, w, k), 0).Some?
    ensures Rescued(Effective(words), v, w, k)
  {
    var eff, t := Effective(words), DetourText(v, w, k);
    EffectiveMatchFrom(words, t, 0);
    assert t[..k] == v[..k] && v[..1] == [t[0]];
    FollowsPath(words, t, v, 1, k);
    var p := v[..k + 1];
    assert v[..k] + [t[k]] == p && p <= v;
    assert t[k + 1..] == w[k..];
    if p in eff {
      assert p[k + 1..] == [];
    } else {
      var u := MatchSpells(eff, t, p, k + 1);
    }
  }

  /** The condition on the dictionary is exact. */
  lemma NeverMissesIffSafe(words: set<string>)
    ensures NeverMisses(words) <==> Safe(words)
  {
    if Safe(words) {
      forall text, i: nat, j: nat | i < |text| && HoldsWord(words, text, i, j)
        ensures MatchFrom(words, text, i).Some?
      {
        SafeNeverMisses(words, text, i, j);
      }
    }
    if NeverMisses(words) {
      forall v, w, k | Parts(Effective(words), v, w, k) ensures Rescued(Effective(words), v, w, k) {
        DetourHoldsWord(words, v, w, k);
        DetourMatch(words, v, w, k);
      }
    }
  }

  /** Safe in particular: words that start alike differ in the last rune only. */
  lemma LateBranchesAreSafe(words: set<string>)
    requires forall v, w :: v in Effective(words) && w in Effective(words) && v[0] == w[0] ==>
               v[..|v| - 1] == w[..|w| - 1]
    ensures Safe(words)
  {
    forall v, w, k | Parts(Effective(words), v, w, k) ensures Rescued(Effective(words), v, w, k) {
      assert v[0] == v[..k][0] == w[..k][0] == w[0];
      assert |v| == |v[..|v| - 1]| + 1 == |w[..|w| - 1]| + 1 == |w|;
      assert forall m :: 0 <= m < |v| - 1 ==> v[m] == v[..|v| - 1][m] == w[..|w| - 1][m] == w[m];
      assert v[..k + 1] <= v && v[k + 1..] == [];
    }
  }

  // ----- what a safe dictionary gives

  lemma {:induction false} Unmatched(words: set<string>, text: string, s: nat, i: nat)
    requires s <= i < |text| && !Covered(Intervals(words, text, s), i)
    ensures MatchFrom(words, text, i) == None
    decreases |text| - s
  {
    var ivs := Intervals(words, text, s);
    match MatchFrom(words, text, s)
    case None =>
      if s < i { Unmatched(words, text, s + 1, i); }
    case Some(j) =>
      assert ivs[0] == (s, j);
      var rest := Intervals(words, text, j + 1);
      assert forall m :: 0 <= m < |rest| ==> ivs[m + 1] == rest[m];
      Unmatched(words, text, j + 1, i);
  }

  /** Dirty is what holds a word of two or more runes as a subsequence. */
  ghost predicate DirtyIsExact(words: set<string>, text: string) {
    Intervals(words, text, 0) != [] <==> exists i: nat, j: nat :: HoldsWord(words, text, i, j)
  }

  /** A detour that loses a word is dirty all the same, through a match from another place. */
  ghost predicate Caught(words: set<string>) {
    forall v, w, k :: Parts(Effective(words), v, w, k) ==>
      Rescued(Effective(words), v, w, k) || Intervals(words, DetourText(v, w, k), 0) != []
  }

  /** A detour that the scan took in the text from `j` on, where it had come to `path`, and by which it lost `w`. */
  ghost predicate LostBy(eff: set<string>, v: string, w: string, k: nat, path: string, t: string) {
    && Parts(eff, v, w, k) && !Rescued(eff, v, w, k)
    && |path| <= k && path <= w && Sub(DetourText(v, w, k)[|path|..], t)
  }

  lemma LostEarlier(eff: set<string>, v: string, w: string, k: nat, path: string, c: char, t: string)
    requires LostBy(eff, v, w, k, path + [c], t)
    ensures LostBy(eff, v, w, k, path, [c] + t)
  {
    var d, n := DetourText(v, w, k), |path|;
    assert d[n..][0] == w[n] == (path + [c])[n] == c;
    assert d[n..][1..] == d[n + 1..] && ([c] + t)[1..] == t;
    assert path <= path + [c];
  }

  /** When the scan misses a word that the text spells, it lost it by a detour that the text spells, too. */
  lemma {:induction false} MissIsDetour(words: set<string>, text: string, path: string, j: nat, w: string)
    returns (v: string, w': string, k: nat)
    requires w in Effective(words) && 1 <= |path| < |w| && path <= w && j <= |text|
    requires Sub(w[|path|..], text[j..]) && MatchEnd(Effective(words), text, path, j) == None
    ensures LostBy(Effective(words), v, w', k, path, text[j..])
    decreases |text| - j
  {
    var eff, n := Effective(words), |path|;
    var rest := w[n..];
    SubTail(rest, text[j..]);
    assert text[j..] == [text[j]] + text[j + 1..] && rest[1..] == w[n + 1..];
    var c := text[j];
    var p := path + [c];
    if !IsPath(eff, p) {
      assert w[..n + 1] == path + [w[n]] && w[..n + 1] <= w;
      v, w', k := MissIsDetour(words, text, path, j + 1, w);
    } else if w[n] == c {
      assert p == w[..n + 1] && p != w;
      v, w', k := MissIsDetour(words, text, p, j + 1, w);
      LostEarlier(eff, v, w', k, path, c, text[j + 1..]);
    } else {
      v :| v in eff && p <= v;
      assert v[..n] == path == w[..n] && v[n] == p[n] == c;
      if Rescued(eff, v, w, n) {
        var u :| u in eff && v[..n + 1] <= u && Sub(u[n + 1..], w[n..]);
        assert v[..n + 1] == p && u != p;
        SubTrans(u[n + 1..], rest, text[j + 1..]);
        v, w', k := MissIsDetour(words, text, p, j + 1, u);
        LostEarlier(eff, v, w', k, path, c, text[j + 1..]);
      } else {
        w', k := w, n;
        assert DetourText(v, w, n)[n..] == [c] + rest;
      }
    }
  }

  lemma {:induction false} SubDrop(u: string, t: string, m: nat)
    requires Sub(u, t) && m <= |u|
    ensures Sub(u[m..], t)
    decreases m
  {
    if m > 0 {
      SubTail(u, t);
      SubDrop(u[1..], t, m - 1);
      assert u[1..][m - 1..] == u[m..];
    } else {
      assert u[0..] == u;
    }
  }

  /** Where a subsequence starts. */
  lemma {:induction false} SubStart(u: string, text: string, s: nat) returns (i: nat)
    requires u != [] && s <= |text| && Sub(u, text[s..])
    ensures s <= i < |text| && text[i] == u[0] && Sub(u[1..], text[i + 1..])
    decreases |text| - s
  {
    assert text[s..] == [text[s]] + text[s + 1..];
    if Sub(u, text[s + 1..]) {
      i := SubStart(u, text, s + 1);
    } else {
      i := s;
    }
  }

  /** What catches a detour starts behind the start of the detour. */
  lemma CaughtLater(words: set<string>, v: string, w: string, k: nat, t: string) returns (u: string)
    requires Caught(words) && w != [] && LostBy(Effective(words), v, w, k, [w[0]], t)
    ensures u in Effective(words) && Sub(u, t)
  {
    var d := DetourText(v, w, k);
    FirstIsMatch(words, d, 0);
    var m := Intervals(words, d, 0)[0].0;
    if m == 0 { DetourMatch(words, v, w, k); }
    EffectiveMatchFrom(words, d, m);
    u := MatchSpells(Effective(words), d, [d[m]], m + 1);
    assert u[..1] == [d[m]] && u[1..] == u[|[d[m]]|..] && d[m..][1..] == d[m + 1..];
    assert Sub(u, d[m..]);
    SubDrop(d[1..], t, m - 1);
    assert d[1..][m - 1..] == d[m..];
    SubTrans(u, d[m..], t);
  }

  /** With all detours caught, a text that spells a word from `i` on is matched there or further on. */
  lemma {:induction false} CaughtMatches(words: set<string>, text: string, i: nat, w: string) returns (m: nat)
    requires Caught(words) && w in Effective(words) && i < |text| && text[i] == w[0] && Sub(w[1..], text[i + 1..])
    ensures i <= m < |text| && MatchFrom(words, text, m).Some?
    decreases |text| - i
  {
    EffectiveMatchFrom(words, text, i);
    assert w[..1] == [text[i]] && [text[i]] <= w && IsPath(Effective(words), [text[i]]);
    if MatchFrom(words, text, i).Some? {
      m := i;
    } else {
      var v, w', k := MissIsDetour(words, text, [text[i]], i + 1, w);
      var u := CaughtLater(words, v, w', k, text[i + 1..]);
      var j := SubStart(u, text, i + 1);
      m := CaughtMatches(words, text, j, u);
    }
  }

  lemma CaughtIsExact(words: set<string>, text: string)
    requires Caught(words)
    ensures DirtyIsExact(words, text)
  {
    DirtyBounds(words, text);
    forall i: nat, j: nat | HoldsWord(words, text, i, j) ensures Intervals(words, text, 0) != [] {
      var w, at :| w in words && |w| >= 2 && Spells(text, w, at) && at[0] == i && at[|at| - 1] == j;
      var u := EffectivePrefix(words, w, 2);
      assert Spells(text, u, at[..|u|]);
      SpellsSub(text, u, at[..|u|], 1, i + 1);
      var m := CaughtMatches(words, text, i, u);
      if Intervals(words, text, 0) == [] { Unmatched(words, text, 0, m); }
    }
  }

  /** In particular, HasDirty is exact with a safe dictionary. */
  lemma SafeIsExact(words: set<string>, text: string)
    requires Safe(words)
    ensures DirtyIsExact(words, text)
  {
    CaughtIsExact(words, text);
  }

  /** The dictionaries for which HasDirty is exact on every text: those whose lost detours are all caught. */
  lemma DirtyExactIffCaught(words: set<string>)
    ensures (forall text :: DirtyIsExact(words, text)) <==> Caught(words)
  {
    if Caught(words) {
      forall text ensures DirtyIsExact(words, text) { CaughtIsExact(words, text); }
    }
    if forall text :: DirtyIsExact(words, text) {
      forall v, w, k | Parts(Effective(words), v, w, k) ensures Intervals(words, DetourText(v, w, k), 0) != [] {
        DetourHoldsWord(words, v, w, k);
        assert DirtyIsExact(words, DetourText(v, w, k));
      }
    }
  }

  lemma {:induction false} FirstIsMatch(words: set<string>, text: string, s: nat)
    requires Intervals(words, text, s) != []
    ensures var i := Intervals(words, text, s)[0].0; s <= i < |text| && MatchFrom(words, text, i).Some?
    decreases |text| - s
  {
    if s < |text| && MatchFrom(words, text, s) == None { FirstIsMatch(words, text, s + 1); }
  }

  /** A branch can be harmless: after ab the word abc asks for no more than ac does. */
  lemma HarmlessBranch()
    ensures Safe({"abc", "ac"}) && !Safe({"abc", "ad"})
  {
    var words: set<string> := {"abc", "ac"};
    forall v, w, k | Parts(Effective(words), v, w, k) ensures Rescued(Effective(words), v, w, k) {
      assert v[..k + 1] <= v;
      if v == "abc" {
        assert k == 1 && v[k + 1..] == "c" && w[k..] == "c";
        SubSelf("c");
      } else {
        assert v == "ac" && v[k + 1..] == [];
      }
    }
    GreedyMisses();
    NeverMissesIffSafe({"abc", "ad"});
    assert MatchFrom({"abc", "ad"}, "abd", 0) == None;
  }

  // ----- masking twice

  ghost predicate AllStars(w: string) {
    forall k :: 0 <= k < |w| ==> w[k] == MASK
  }

  /** No word of two or more runes consists of stars. */
  ghost predicate NoStarWord(words: set<string>) {
    forall w :: w in words && |w| >= 2 ==> !AllStars(w)
  }

  lemma MatchChangesText(words: set<string>, text: string)
    requires NoStarWord(words) && Intervals(words, text, 0) != []
    ensures Masked(words, text) != text
  {
    var ivs := Intervals(words, text, 0);
    IntervalsSound(words, text, 0);
    var (i, j) := ivs[0];
    var w, at :| w in words && |w| >= 2 && Spells(text, w, at) && at[0] == i && at[|at| - 1] == j;
    var k :| 0 <= k < |w| && w[k] != MASK;
    assert i <= at[k] <= j;
    assert Covered(ivs, at[k]);
    assert Masked(words, text)[at[k]] == MASK;
  }

  /** A word of stars is matched by the text that it is, and masking does not show. */
  lemma StarWordIsInvisible(words: set<string>, w: string)
    requires w in words && |w| >= 2 && AllStars(w)
    ensures Masked(words, w) == w && Intervals(words, w, 0) != []
  {
    assert OccursAt(w, w, 0);
    OccurrenceCovered(words, w, 0, 0, w);
  }

  /** The dictionaries for which Replace changes exactly the dirty texts. */
  lemma ChangedIffDirty(words: set<string>)
    ensures NoStarWord(words) <==> forall text {:trigger Masked(words, text)} ::
              Masked(words, text) == text <==> Intervals(words, text, 0) == []
  {
    if NoStarWord(words) {
      forall text ensures Masked(words, text) == text <==> Intervals(words, text, 0) == [] {
        DirtyBounds(words, text);
        if Intervals(words, text, 0) != [] { MatchChangesText(words, text); }
      }
    } else {
      var w :| w in words && |w| >= 2 && AllStars(w);
      StarWordIsInvisible(words, w);
    }
  }

  /** All that the second pass would hide are stars already. */
  ghost predicate HidesOnlyStars(words: set<string>, text: string) {
    forall m :: 0 <= m < |Intervals(words, text, 0)| ==> StarsBetween(text, Intervals(words, text, 0)[m])
  }

  ghost predicate StarsBetween(text: string, iv: (nat, nat)) {
    forall k :: iv.0 <= k <= iv.1 && k < |text| ==> text[k] == MASK
  }

  lemma UnchangedIff(words: set<string>, text: string)
    ensures Masked(words, text) == text <==> HidesOnlyStars(words, text)
  {
    var ivs := Intervals(words, text, 0);
    IntervalsSound(words, text, 0);
    if HidesOnlyStars(words, text) {
      forall k | 0 <= k < |text| && Covered(ivs, k) ensures text[k] == MASK {
        var m :| 0 <= m < |ivs| && ivs[m].0 <= k <= ivs[m].1;
        assert StarsBetween(text, ivs[m]);
      }
      assert Masked(words, text) == text;
    } else {
      var m :| 0 <= m < |ivs| && !StarsBetween(text, ivs[m]);
      var k: int :| ivs[m].0 <= k <= ivs[m].1 && k < |text| && text[k] != MASK;
      assert Covered(ivs, k);
      assert Masked(words, text)[k] == MASK;
    }
  }

  /**
   A second pass changes nothing if and only if all it would hide are stars; with no word of stars in the
   dictionary, if and only if HasDirty is false on the output of the first pass.
   */
  lemma SecondPassIff(words: set<string>, text: string)
    ensures var once := Masked(words, text);
      && (Masked(words, once) == once <==> HidesOnlyStars(words, once))
      && (NoStarWord(words) ==> (Masked(words, once) == once <==> Intervals(words, once, 0) == []))
  {
    UnchangedIff(words, Masked(words, text));
    ChangedIffDirty(words);
  }

  ghost predicate StarFree(words: set<string>) {
    forall w :: w in words && |w| >= 2 ==> MASK !in w
  }

  /** What a star-free word spells in the output it spells in the text, outside all masked intervals. */
  lemma SpelledOutside(words: set<string>, text: string, w: string, at: seq<nat>)
    requires MASK !in w && Spells(Masked(words, text), w, at)
    ensures Spells(text, w, at)
    ensures forall m :: 0 <= m < |at| ==> !Covered(Intervals(words, text, 0), at[m])
  {
    forall m | 0 <= m < |at| ensures !Covered(Intervals(words, text, 0), at[m]) && text[at[m]] == w[m] {
      assert w[m] in w;
    }
  }

  /** With a safe, star-free dictionary Replace is idempotent and leaves no word, not even as a subsequence. */
  lemma SafeIsIdempotent(words: set<string>, text: string)
    requires Safe(words) && StarFree(words)
    ensures Masked(words, Masked(words, text)) == Masked(words, text)
    ensures forall i: nat, j: nat :: !HoldsWord(words, Masked(words, text), i, j)
  {
    var out := Masked(words, text);
    forall i: nat, j: nat ensures !HoldsWord(words, out, i, j) {
      if HoldsWord(words, out, i, j) {
        var w, at :| w in words && |w| >= 2 && Spells(out, w, at) && at[0] == i && at[|at| - 1] == j;
        SpelledOutside(words, text, w, at);
        assert HoldsWord(words, text, i, j);
        SafeNeverMisses(words, text, i, j);
        Unmatched(words, text, 0, i);
      }
    }
    SafeIsExact(words, out);
    DirtyBounds(words, out);
  }
}
