/**
 The heap-allocated trie and its two scanners.  Text is a sequence of runes, so Dafny's
 `char` stands for the source's `rune`.
 */
module Trie {
  import opened WordScan
  import opened WordStretch
  import opened Common

  class TrieNode {
    var children: map<char, TrieNode>
    var end: bool
    ghost const path: string  // the runes that lead here from the root

    constructor (ghost path: string)
      ensures children == map[] && !end && this.path == path
    {
      children, end := map[], false;
      this.path := path;
    }
  }

  ghost function Paths(words: set<string>): iset<string> {
    iset p | IsPath(words, p)
  }

  lemma AddRootPath(words: set<string>)
    ensures Paths(words + {[]}) == Paths(words)
  {
    forall p | IsPath(words, p) && p != [] ensures IsPath(words + {[]}, p) {
      var w :| w in words && p <= w;
      assert w in words + {[]};
    }
  }

  lemma PrefixStep(words: set<string>, key: string, i: nat)
    requires i < |key|
    ensures key[..i] + [key[i]] == key[..i + 1]
    ensures Paths(words + {key[..i + 1]}) == Paths(words + {key[..i]}) + iset{key[..i + 1]}
  {
    var u, v := key[..i], key[..i + 1];
    assert u <= v;
    forall p ensures IsPath(words + {v}, p) <==> (IsPath(words + {u}, p) || p == v) {
      if p <= u { assert p <= v; }
      if p <= v && p != v { assert p <= u; }
      assert v in words + {v};
      assert u in words + {u};
    }
  }

  ghost predicate PrefixClosed(paths: iset<string>) {
    forall p, c {:trigger p + [c]} :: p + [c] in paths ==> p in paths
  }

  lemma PathsClosed(words: set<string>)
    ensures PrefixClosed(Paths(words))
  {
    forall p, c | p + [c] in Paths(words) ensures p in Paths(words) { PathPrefix(words, p, c); }
  }

  lemma CoveredAppend(done: seq<(nat, nat)>, i: nat, j: nat)
    ensures forall k :: Covered(done + [(i, j)], k) <==> (Covered(done, k) || i <= k <= j)
  {
    var more := done + [(i, j)];
    forall k ensures Covered(more, k) <==> (Covered(done, k) || i <= k <= j) {
      if Covered(done, k) {
        var m :| 0 <= m < |done| && done[m].0 <= k <= done[m].1;
        assert more[m] == done[m];
      }
      if i <= k <= j { assert more[|done|] == (i, j); }
    }
  }

  /** The scan of `txt` has dealt with the runes before `i` and masked the intervals `done`. */
  ghost predicate Scanned(words: set<string>, txt: string, done: seq<(nat, nat)>, i: nat) {
    && Intervals(words, txt, 0) == done + Intervals(words, txt, i)
    && forall m :: 0 <= m < |done| ==> done[m].1 < i
  }

  lemma ScanStep(words: set<string>, txt: string, done: seq<(nat, nat)>, i: nat)
    requires i < |txt| && Scanned(words, txt, done, i)
    ensures Mask(txt, done)[i..] == txt[i..]
    ensures match MatchFrom(words, txt, i)
            case None => Scanned(words, txt, done, i + 1)
            case Some(j) => Scanned(words, txt, done + [(i, j)], j + 1)
  {
    match MatchFrom(words, txt, i)
    case None =>
    case Some(j) =>
      var rest := Intervals(words, txt, j + 1);
      assert done + ([(i, j)] + rest) == (done + [(i, j)]) + rest;
  }

  lemma ScanEnd(words: set<string>, txt: string, done: seq<(nat, nat)>)
    requires Scanned(words, txt, done, |txt|)
    ensures Masked(words, txt) == Mask(txt, done)
    ensures done == [] ==> Mask(txt, done) == txt
  {
    assert done + [] == done;
  }

  /** The conversion `[]rune(txt)`: a new array. */
  method Runes(txt: string) returns (key: array<char>)
    ensures fresh(key) && key[..] == txt
  {
    key := new char[|txt|](k requires 0 <= k < |txt| => txt[k]);
  }

  /** The masking loop of `Replace`, adding the interval (i, j). */
  method Star(chars: array<char>, ghost txt: string, ghost done: seq<(nat, nat)>, i: nat, j: nat)
    requires i <= j < chars.Length == |txt| && chars[..] == Mask(txt, done)
    modifies chars
    ensures chars[..] == Mask(txt, done + [(i, j)])
  {
    var t := i;
    while t <= j
      invariant i <= t <= j + 1
      invariant forall k :: 0 <= k < chars.Length ==> chars[k] == if i <= k < t then MASK else old(chars[k])
    {
      chars[t] := MASK;
      t := t + 1;
    }
    CoveredAppend(done, i, j);
    forall k | 0 <= k < |txt| ensures chars[k] == Mask(txt, done + [(i, j)])[k] {
      assert old(chars[..])[k] == old(chars[k]);
    }
  }

  lemma SnocInjective(p: string, c: char, q: string, d: char)
    ensures p + [c] == q + [d] ==> p == q && c == d
  {
    assert (p + [c])[..|p|] == p && (q + [d])[..|q|] == q;
  }

  ghost predicate SamePath(m: TrieNode, n: TrieNode) {
    m.path == n.path
  }

  class Trie {
    var root: TrieNode
    var count: nat

    ghost var words: set<string>
    ghost var repr: set<TrieNode>  // every node of the tree

    /** The nodes form one tree without sharing, and they stand for exactly the given paths. */
    ghost predicate Tree(paths: iset<string>)
      reads `root, `repr, repr`children
    {
      && root in repr && root.path == []
      && (forall n :: n in repr ==> n.path in paths)
      && (forall m, n {:trigger SamePath(m, n)} :: m in repr && n in repr && SamePath(m, n) ==> m == n)
      && (forall n {:trigger EdgesOk(n, paths)} :: n in repr ==> EdgesOk(n, paths))
    }

    /** The edges out of `n` are exactly those that the paths ask for, and they lead to the right nodes. */
    ghost predicate EdgesOk(n: TrieNode, paths: iset<string>)
      reads `repr, n`children
    {
      && (forall c :: c in n.children <==> n.path + [c] in paths)
      && (forall c :: c in n.children ==> n.children[c] in repr && n.children[c].path == n.path + [c])
    }

    ghost predicate Valid()
      reads this, repr
    {
      && Tree(Paths(words))
      && (forall n :: n in repr ==> (n.end <==> n.path in words))
      && [] !in words
      && count == |words|
    }

    constructor ()
      ensures Valid() && words == {} && fresh(repr)
    {
      var r := new TrieNode([]);
      root, count := r, 0;
      words, repr := {}, {r};
    }

    ghost predicate HasNode(p: string)
      reads this, repr
    {
      exists n :: n in repr && n.path == p
    }

    /**
     A string leads to a node exactly when it is a prefix of an inserted word, and to a marked one exactly
     when it is a word.
     */
    lemma {:induction false} RepresentsWords(p: string)
      requires Valid()
      ensures HasNode(p) <==> IsPath(words, p)
      ensures (exists n :: n in repr && n.path == p && n.end) <==> p in words
      decreases |p|
    {
      if p == [] {
        assert root.path == p;
      } else {
        var up, c := p[..|p| - 1], p[|p| - 1];
        assert p == up + [c];
        RepresentsWords(up);
        PathPrefix(words, up, c);
        if IsPath(words, p) {
          var m :| m in repr && m.path == up;
          assert EdgesOk(m, Paths(words)) && c in m.children && m.children[c].path == p;
        }
      }
      if p in words {
        assert p <= p && IsPath(words, p);
        var n :| n in repr && n.path == p;
        assert n.end;
      }
    }

    /** The missing edge `c` out of `node` gets a new, unmarked node. */
    method Grow(node: TrieNode, c: char, ghost paths: iset<string>)
      requires Tree(paths) && node in repr && c !in node.children
      requires forall d :: node.path + [c] + [d] !in paths
      modifies `repr, node`children
      ensures Tree(paths + iset{node.path + [c]}) && c in node.children
      ensures old(repr) <= repr && (forall o :: o in repr && o !in old(repr) ==> fresh(o))
      ensures forall n :: n in repr && n !in old(repr) ==> !n.end && n.path !in paths
    {
      ghost var p := node.path + [c];
      assert EdgesOk(node, paths);
      var n := new TrieNode(p);
      node.children := node.children[c := n];
      repr := repr + {n};
      assert forall m :: m in repr && m != n ==> m.path in paths && m.path != p;
      forall m | m in repr ensures EdgesOk(m, paths + iset{p}) {
        if m != n {
          assert old(EdgesOk(m, paths)) && (SamePath(m, node) ==> m == node);
          forall d { SnocInjective(node.path, c, m.path, d); }
        }
      }
    }

    /** One round of `insert`: follow the edge `c` out of `node`, creating it when it is missing. */
    method Descend(node: TrieNode, c: char, ghost paths: iset<string>) returns (next: TrieNode)
      requires Tree(paths) && PrefixClosed(paths) && node in repr
      modifies `repr, node`children
      ensures Tree(paths + iset{node.path + [c]}) && next in repr && next.path == node.path + [c]
      ensures old(repr) <= repr && (forall o :: o in repr && o !in old(repr) ==> fresh(o))
      ensures forall n :: n in repr && n !in old(repr) ==> !n.end && n.path !in paths
    {
      assert EdgesOk(node, paths);
      if c !in node.children {
        Grow(node, c, paths);
      } else {
        assert paths + iset{node.path + [c]} == paths;
      }
      assert EdgesOk(node, paths + iset{node.path + [c]});
      next := node.children[c];
    }

    /** The loop of `insert`: walk along `key`, growing the missing nodes. */
    method Walk(key: string) returns (node: TrieNode)
      requires Tree(Paths(words))
      modifies `repr, repr`children
      ensures Tree(Paths(words + {key})) && node in repr && node.path == key
      ensures old(repr) <= repr && (forall o :: o in repr && o !in old(repr) ==> fresh(o))
      ensures forall n :: n in repr && n !in old(repr) ==> !n.end && n.path !in Paths(words)
    {
      node := root;
      var i := 0;
      AddRootPath(words);
      while i < |key|
        invariant 0 <= i <= |key| && Tree(Paths(words + {key[..i]}))
        invariant node in repr && node.path == key[..i]
        invariant old(repr) <= repr && (forall o :: o in repr && o !in old(repr) ==> fresh(o))
        invariant Paths(words) <= Paths(words + {key[..i]})
        invariant forall n :: n in repr && n !in old(repr) ==> !n.end && n.path !in Paths(words)
      {
        PathsClosed(words + {key[..i]});
        node := Descend(node, key[i], Paths(words + {key[..i]}));
        PrefixStep(words, key, i);
        i := i + 1;
      }
      assert key[..i] == key;
    }

    /** trie.go's `insert`; the empty word is ignored and a duplicate changes nothing. */
    method Insert(key: string)
      requires Valid()
      modifies this, repr
      ensures Valid() && (forall o :: o in repr && o !in old(repr) ==> fresh(o))
      ensures words == if key == [] then old(words) else old(words) + {key}
    {
      if |key| < 1 { return; }
      var node := Walk(key);
      forall n | n in repr && n.path == key ensures n == node { assert SamePath(n, node); }
      if !node.end {
        node.end := true;
        count := count + 1;
      }
      words := words + {key};
    }

    /** What an edge, or its absence, says about the words. */
    lemma EdgeIsPath(n: TrieNode, c: char)
      requires Valid() && n in repr
      ensures c in n.children <==> IsPath(words, n.path + [c])
      ensures c in n.children ==>
                var m := n.children[c];
                m in repr && m.path == n.path + [c] && (m.end <==> n.path + [c] in words)
    {
      assert EdgesOk(n, Paths(words));
    }

    lemma RootEdge(c: char)
      requires Valid()
      ensures c in root.children <==> [c] in Paths(words)
      ensures c in root.children ==> root.children[c] in repr && root.children[c].path == [c]
    {
      EdgeIsPath(root, c);
      assert root.path + [c] == [c];
    }

    /**
     The inner loop that `HasDirty` and `Replace` share: from the child of the root on `key[i]`,
     skip runes without an edge until a node ends a word.
     */
    method FindEnd(key: array<char>, i: nat, ghost txt: string) returns (r: Option<nat>)
      requires Valid() && i < key.Length == |txt| && [txt[i]] in Paths(words)
      requires forall k :: i <= k < |txt| ==> key[k] == txt[k]
      ensures r == MatchFrom(words, txt, i)
      ensures forall j: nat :: r == Some(j) <==> Stretch(words, txt, i, j)
    {
      r := FollowEdges(key, i, txt);
      forall j: nat ensures r == Some(j) <==> Stretch(words, txt, i, j) { MatchIffStretch(words, txt, i, j); }
    }

    method FollowEdges(key: array<char>, i: nat, ghost txt: string) returns (r: Option<nat>)
      requires Valid() && i < key.Length == |txt| && [txt[i]] in Paths(words)
      requires forall k :: i <= k < |txt| ==> key[k] == txt[k]
      ensures r == MatchFrom(words, txt, i)
    {
      RootEdge(txt[i]);
      var node := root.children[key[i]];
      var j := i + 1;
      while j < key.Length
        invariant i < j <= key.Length
        invariant node in repr && node.path != []
        invariant MatchFrom(words, txt, i) == MatchEnd(words, txt, node.path, j)
      {
        EdgeIsPath(node, txt[j]);
        if key[j] in node.children {
          node := node.children[key[j]];
          if node.end {
            return Some(j);
          }
        }
        j := j + 1;
      }
      return None;
    }

    method HasDirty(txt: string) returns (dirty: bool)
      requires Valid()
      ensures dirty <==> Intervals(words, txt, 0) != []
      ensures dirty <==> exists i: nat, j: nat :: Stretch(words, txt, i, j)
    {
      DirtyIffStretch(words, txt);
      if |txt| < 1 { return false; }
      var key := Runes(txt);
      var i := 0;
      while i < key.Length
        invariant 0 <= i <= key.Length
        invariant key[..] == txt
        invariant Intervals(words, txt, 0) == Intervals(words, txt, i)
      {
        assert forall k :: 0 <= k < |txt| ==> key[k] == key[..][k];
        RootEdge(txt[i]);
        if key[i] in root.children {
          var end := FindEnd(key, i, txt);
          if end.Some? {
            return true;
          }
        }
        i := i + 1;
      }
      return false;
    }

    /** One round of `Replace`'s outer loop: `chars` is `key` itself, so a match is starred in place. */
    method MaskFrom(key: array<char>, i: nat, ghost txt: string, ghost done: seq<(nat, nat)>)
      returns (last: nat, ghost done': seq<(nat, nat)>)
      requires Valid() && i < key.Length == |txt|
      requires Scanned(words, txt, done, i) && key[..] == Mask(txt, done)
      modifies key
      ensures Valid() && i <= last < key.Length
      ensures Scanned(words, txt, done', last + 1) && key[..] == Mask(txt, done')
      ensures |done'| == |done| + if last == i then 0 else 1
    {
      ScanStep(words, txt, done, i);
      assert forall k :: i <= k < |txt| ==> key[k] == key[..][i..][k - i];
      RootEdge(txt[i]);
      last, done' := i, done;
      if key[i] in root.children {
        var end := FindEnd(key, i, txt);
        if end.Some? {
          var chars := key;
          Star(chars, txt, done, i, end.value);
          last, done' := end.value, done + [(i, end.value)];
        }
      }
    }

    /** trie.go's `Replace`: once a match is found, `chars` is the very array `key` that is still being read. */
    method Replace(txt: string) returns (out: string)
      requires Valid()
      ensures out == Masked(words, txt) && Hidden(words, txt, out)
    {
      MaskedIffHidden(words, txt, Masked(words, txt));
      if |txt| < 1 { return txt; }
      var key := Runes(txt);
      var chars: array?<char> := null;
      ghost var done: seq<(nat, nat)> := [];  // intervals masked so far
      var i := 0;
      assert key[..] == Mask(txt, done);
      while i < key.Length
        invariant 0 <= i <= key.Length == |txt| && Valid()
        invariant Scanned(words, txt, done, i) && key[..] == Mask(txt, done)
        invariant chars == if |done| == 0 then null else key
      {
        var last;
        last, done := MaskFrom(key, i, txt, done);
        if last != i { chars := key; }
        i := last + 1;
      }
      ScanEnd(words, txt, done);
      if chars == null { return txt; } else { return chars[..]; }
    }
  }
}
