/**
 The complete binary tree that is built from a slice, and its pre-order print.  Node `k` of the tree
 has the children 2k + 1 and 2k + 2; an entry is modelled by its string, a nil entry by None.
 */
module CompleteTree {
  import opened Common

  // ----- indices

  function Parent(k: nat): nat
    requires k > 0
  {
    (k - 1) / 2
  }

  /** `k` lies in the subtree of `i`. */
  predicate Under(k: nat, i: nat)
    decreases k
  {
    k == i || (k > i && Under(Parent(k), i))
  }

  lemma {:induction false} UnderRoot(k: nat)
    ensures Under(k, 0)
  {
    if k > 0 { UnderRoot(Parent(k)); }
  }

  lemma {:induction false} UnderSplit(k: nat, i: nat)
    ensures Under(k, i) <==> k == i || Under(k, 2 * i + 1) || Under(k, 2 * i + 2)
    ensures !(Under(k, 2 * i + 1) && Under(k, 2 * i + 2)) && !Under(i, 2 * i + 1) && !Under(i, 2 * i + 2)
    decreases k
  {
    if k > 0 { UnderSplit(Parent(k), i); }
  }

  function Depth(k: nat): nat {
    if k == 0 then 0 else 1 + Depth(Parent(k))
  }

  function Pow2(d: nat): nat {
    if d == 0 then 1 else 2 * Pow2(d - 1)
  }

  /** The depth of node `k` is the whole part of log2(k + 1). */
  lemma {:induction false} DepthIsLog(k: nat)
    ensures Pow2(Depth(k)) <= k + 1 < Pow2(Depth(k) + 1)
  {
    if k > 0 { DepthIsLog(Parent(k)); }
  }

  lemma {:induction false} Pow2Grows(a: nat, b: nat)
    ensures a <= b ==> Pow2(a) <= Pow2(b)
  {
    if a < b { Pow2Grows(a, b - 1); }
  }

  /** Nodes n to 2n, the empty ones, are on the level of node n or one below. */
  lemma EmptyDepth(n: nat, k: nat)
    requires n <= k <= 2 * n
    ensures Depth(k) == Depth(n) || Depth(k) == Depth(n) + 1
  {
    DepthIsLog(k);
    DepthIsLog(n);
    Pow2Grows(Depth(k) + 1, Depth(n));
    Pow2Grows(Depth(n) + 2, Depth(k));
  }

  // ----- building

  class Node {
    var value: Option<string>
    var left: Node?
    var right: Node?
    ghost const index: nat

    constructor (ghost index: nat)
      ensures value == None && left == null && right == null && this.index == index
    {
      value, left, right := None, null, null;
      this.index := index;
    }
  }

  ghost predicate SameIndex(a: Node, b: Node) {
    a.index == b.index
  }

  /** Node `k < n` holds input[k] and has its two children in the tree; the other nodes are empty. */
  ghost predicate NodeOk(m: Node, input: seq<Option<string>>, repr: set<Node>)
    reads m
  {
    if m.index < |input| then
      && m.value == input[m.index]
      && m.left != null && m.left in repr && m.left.index == 2 * m.index + 1
      && m.right != null && m.right in repr && m.right.index == 2 * m.index + 2
    else m.value == None && m.left == null && m.right == null
  }

  /** The nodes of the subtree of `i`, one for each index that the source reaches. */
  ghost predicate Built(input: seq<Option<string>>, i: nat, repr: set<Node>)
    reads repr
  {
    && (forall m :: m in repr ==> NodeOk(m, input, repr))
    && (forall a, b {:trigger SameIndex(a, b)} :: a in repr && b in repr && SameIndex(a, b) ==> a == b)
    && (forall m :: m in repr ==> Under(m.index, i) && (m.index == i || Parent(m.index) < |input|))
  }

  lemma JoinBuilt(input: seq<Option<string>>, i: nat, node: Node, lefts: set<Node>, rights: set<Node>)
    requires i < |input| && node.index == i && node.value == input[i]
    requires node.left != null && node.left in lefts && node.left.index == 2 * i + 1
    requires node.right != null && node.right in rights && node.right.index == 2 * i + 2
    requires Built(input, 2 * i + 1, lefts) && Built(input, 2 * i + 2, rights)
    ensures Built(input, i, {node} + lefts + rights)
  {
    var repr := {node} + lefts + rights;
    forall m | m in repr
      ensures NodeOk(m, input, repr) && Under(m.index, i) && (m.index == i || Parent(m.index) < |input|)
    {
      UnderSplit(m.index, i);
      if m in lefts { assert NodeOk(m, input, lefts); }
      else if m in rights { assert NodeOk(m, input, rights); }
    }
    forall a, b | a in repr && b in repr && SameIndex(a, b) ensures a == b {
      UnderSplit(a.index, i);
    }
  }

  /** The first half of `completeBT`: store the entry and hang two new nodes below. */
  method Fill(node: Node, entry: Option<string>, ghost i: nat) returns (l: Node, r: Node)
    modifies node
    ensures node.value == entry && node.left == l && node.right == r
    ensures fresh(l) && l.index == 2 * i + 1 && l.value == None && l.left == null && l.right == null
    ensures fresh(r) && r.index == 2 * i + 2 && r.value == None && r.left == null && r.right == null
  {
    node.value := entry;
    l := new Node(2 * i + 1);
    r := new Node(2 * i + 2);
    node.left, node.right := l, r;
  }

  /** completebt.go's `completeBT` on a fresh node for index `i`. */
  method CompleteBT(input: seq<Option<string>>, node: Node, i: nat) returns (ghost repr: set<Node>)
    requires node.index == i && node.value == None && node.left == null && node.right == null
    modifies node
    ensures node in repr && Built(input, i, repr)
    ensures forall m :: m in repr ==> m == node || fresh(m)
    decreases |input| - i, 1
  {
    if |input| == 0 || i >= |input| {
      return {node};
    }
    var l, r := Fill(node, input[i], i);
    ghost var lefts, rights := Subtrees(input, l, r, i);
    repr := {node} + lefts + rights;
    JoinBuilt(input, i, node, lefts, rights);
  }

  /** The two recursive calls of `completeBT`. */
  method Subtrees(input: seq<Option<string>>, l: Node, r: Node, i: nat)
    returns (ghost lefts: set<Node>, ghost rights: set<Node>)
    requires i < |input| && l != r && l.index == 2 * i + 1 && r.index == 2 * i + 2
    requires l.value == None && l.left == null && l.right == null
    requires r.value == None && r.left == null && r.right == null
    modifies l, r
    ensures l in lefts && Built(input, 2 * i + 1, lefts) && r in rights && Built(input, 2 * i + 2, rights)
    ensures forall m :: m in lefts ==> m == l || fresh(m)
    ensures forall m :: m in rights ==> m == r || fresh(m)
    decreases |input| - i, 0
  {
    lefts := CompleteBT(input, l, 2 * i + 1);
    assert r !in lefts;
    rights := CompleteBT(input, r, 2 * i + 2);
  }

  /** completebt.go's `FromSlice`. */
  method FromSlice(input: seq<Option<string>>) returns (node: Node, ghost repr: set<Node>)
    ensures fresh(repr) && node in repr && node.index == 0 && Built(input, 0, repr)
  {
    node := new Node(0);
    repr := CompleteBT(input, node, 0);
  }

  ghost predicate HasIndex(repr: set<Node>, k: nat) {
    exists m :: m in repr && m.index == k
  }

  /** Every index that can be reached has its node: 0 to 2n for the whole tree. */
  lemma {:induction false} EveryIndexHasNode(input: seq<Option<string>>, repr: set<Node>, k: nat)
    requires Built(input, 0, repr) && HasIndex(repr, 0) && k <= 2 * |input|
    ensures HasIndex(repr, k)
  {
    if k > 0 {
      EveryIndexHasNode(input, repr, Parent(k));
      var p :| p in repr && p.index == Parent(k);
      assert NodeOk(p, input, repr);
      assert k == 2 * Parent(k) + 1 || k == 2 * Parent(k) + 2;
      var child := if k == 2 * p.index + 1 then p.left else p.right;
      assert child in repr && child.index == k;
    }
  }

  lemma {:induction false} SizeByIndex(nodes: set<Node>, lo: nat, hi: nat)
    requires lo <= hi && forall m :: m in nodes ==> lo <= m.index < hi
    requires forall a, b {:trigger SameIndex(a, b)} :: a in nodes && b in nodes && SameIndex(a, b) ==> a == b
    requires forall k {:trigger HasIndex(nodes, k)} :: lo <= k < hi ==> HasIndex(nodes, k)
    ensures |nodes| == hi - lo
    decreases hi
  {
    if lo < hi {
      assert HasIndex(nodes, hi - 1);
      var last :| last in nodes && last.index == hi - 1;
      var rest := nodes - {last};
      forall m | m in rest ensures m.index < hi - 1 {
        assert !SameIndex(m, last);
      }
      forall k: nat | lo <= k < hi - 1 ensures HasIndex(rest, k) {
        assert HasIndex(nodes, k);
        var m :| m in nodes && m.index == k;
        assert m in rest;
      }
      SizeByIndex(rest, lo, hi - 1);
      assert nodes == rest + {last};
    } else {
      assert forall m :: m !in nodes;
      assert nodes == {};
    }
  }

  /** The nodes that were never filled; a nil entry leaves a node without a value, but with children. */
  ghost function EmptyNodes(repr: set<Node>): set<Node>
    reads repr
  {
    set m | m in repr && m.value == None && m.left == null && m.right == null
  }

  /** The tree of n entries has exactly n + 1 empty nodes, and they are on two neighbouring levels. */
  lemma EmptyNodesOf(input: seq<Option<string>>, repr: set<Node>)
    requires Built(input, 0, repr) && HasIndex(repr, 0)
    ensures |repr| == 2 * |input| + 1 && |EmptyNodes(repr)| == |input| + 1
    ensures forall m :: m in EmptyNodes(repr) ==> Depth(m.index) in {Depth(|input|), Depth(|input|) + 1}
  {
    var n, empty := |input|, EmptyNodes(repr);
    forall m | m in repr ensures m.index <= 2 * n && (m in empty <==> m.index >= n) {
      assert NodeOk(m, input, repr);
    }
    forall k: nat | 0 <= k < 2 * n + 1 ensures HasIndex(repr, k) {
      EveryIndexHasNode(input, repr, k);
    }
    SizeByIndex(repr, 0, 2 * n + 1);
    forall k: nat | n <= k < 2 * n + 1 ensures HasIndex(empty, k) {
      assert HasIndex(repr, k);
      var m :| m in repr && m.index == k;
      assert m in empty;
    }
    SizeByIndex(empty, n, 2 * n + 1);
    forall m | m in empty ensures Depth(m.index) in {Depth(n), Depth(n) + 1} {
      EmptyDepth(n, m.index);
    }
  }

  // ----- printing

  /** The order in which `Literal` visits the entries below index `i`. */
  function PreOrder(i: nat, n: nat): seq<nat>
    decreases n - i
  {
    if i >= n then [] else [i] + PreOrder(2 * i + 1, n) + PreOrder(2 * i + 2, n)
  }

  function Times(xs: seq<nat>, k: nat): nat {
    if xs == [] then 0 else (if xs[0] == k then 1 else 0) + Times(xs[1..], k)
  }

  lemma {:induction false} TimesIsMultiplicity(xs: seq<nat>, k: nat)
    ensures Times(xs, k) == multiset(xs)[k]
  {
    if xs != [] {
      assert xs == [xs[0]] + xs[1..];
      TimesIsMultiplicity(xs[1..], k);
    }
  }

  lemma {:induction false} TimesAppend(a: seq<nat>, b: seq<nat>, k: nat)
    ensures Times(a + b, k) == Times(a, k) + Times(b, k)
  {
    if a == [] {
      assert a + b == b;
    } else {
      assert (a + b)[1..] == a[1..] + b;
      TimesAppend(a[1..], b, k);
    }
  }

  lemma {:induction false} PreOrderVisits(i: nat, n: nat, k: nat)
    ensures Times(PreOrder(i, n), k) == if k < n && Under(k, i) then 1 else 0
    decreases n - i
  {
    UnderAbove(k, i);
    if i < n {
      var l, r := PreOrder(2 * i + 1, n), PreOrder(2 * i + 2, n);
      TimesAppend([i] + l, r, k);
      TimesAppend([i], l, k);
      PreOrderVisits(2 * i + 1, n, k);
      PreOrderVisits(2 * i + 2, n, k);
      UnderSplit(k, i);
    }
  }

  lemma {:induction false} UnderAbove(k: nat, i: nat)
    ensures Under(k, i) ==> k >= i
  {}

  /** Every entry of the slice is visited exactly once. */
  lemma VisitsEachOnce(n: nat, k: nat)
    ensures multiset(PreOrder(0, n))[k] == if k < n then 1 else 0
  {
    PreOrderVisits(0, n, k);
    TimesIsMultiplicity(PreOrder(0, n), k);
    UnderRoot(k);
  }

  // ----- the order of the visit

  lemma {:induction false} UnderTrans(a: nat, b: nat, c: nat)
    requires Under(a, b) && Under(b, c)
    ensures Under(a, c)
    decreases a
  {
    if a > b { UnderTrans(Parent(a), b, c); }
  }

  /** Of two nodes above the same one, one is above the other. */
  lemma {:induction false} UnderChain(a: nat, b: nat, c: nat)
    requires Under(a, b) && Under(a, c)
    ensures Under(b, c) || Under(c, b)
    decreases a
  {
    if a > b && a > c { UnderChain(Parent(a), b, c); }
  }

  /** `a` has to be visited before `b`: it lies above it, or in the left subtree where `b` is in the right one. */
  ghost predicate Before(a: nat, b: nat) {
    (a != b && Under(b, a)) || exists m: nat :: LeftAndRight(m, a, b)
  }

  ghost predicate LeftAndRight(m: nat, a: nat, b: nat) {
    Under(a, 2 * m + 1) && Under(b, 2 * m + 2)
  }

  lemma {:induction false} VisitsUnder(i: nat, n: nat, p: nat)
    requires p < |PreOrder(i, n)|
    ensures Under(PreOrder(i, n)[p], i)
    decreases n - i
  {
    var l, r := PreOrder(2 * i + 1, n), PreOrder(2 * i + 2, n);
    var k := PreOrder(i, n)[p];
    UnderSplit(k, i);
    if 1 <= p <= |l| {
      VisitsUnder(2 * i + 1, n, p - 1);
    } else if p > |l| {
      VisitsUnder(2 * i + 2, n, p - 1 - |l|);
    }
  }

  /** Nothing below a node comes before it. */
  lemma RootFirst(i: nat, k: nat)
    requires Under(k, i)
    ensures !Before(k, i)
  {
    UnderAbove(k, i);
    UnderAbove(i, k);
    forall m: nat ensures !LeftAndRight(m, k, i) {
      UnderSplit(k, m);
      if Under(i, 2 * m + 2) { UnderTrans(k, i, 2 * m + 2); }
    }
  }

  /** Nothing of the right subtree comes before anything of the left one. */
  lemma LeftFirst(i: nat, k: nat, l: nat)
    requires Under(k, 2 * i + 1) && Under(l, 2 * i + 2)
    ensures !Before(l, k)
  {
    UnderSplit(k, i);
    UnderSplit(l, i);
    if Under(k, l) { UnderTrans(k, l, 2 * i + 2); }
    forall m: nat ensures !LeftAndRight(m, l, k) { NotCrossed(i, m, k, l); }
  }

  lemma NotCrossed(i: nat, m: nat, k: nat, l: nat)
    requires Under(k, 2 * i + 1) && Under(l, 2 * i + 2)
    ensures !LeftAndRight(m, l, k)
  {
    UnderSplit(k, i);
    UnderSplit(l, i);
    UnderSplit(k, m);
    UnderSplit(l, m);
    if LeftAndRight(m, l, k) {
      UnderChain(k, i, m);
      if i > m {
        UnderSplit(i, m);
        if Under(i, 2 * m + 1) { UnderTrans(k, i, 2 * m + 1); } else { UnderTrans(l, i, 2 * m + 2); }
      } else if m > i {
        UnderSplit(m, i);
        if Under(m, 2 * i + 1) { UnderTrans(l, m, 2 * i + 1); } else { UnderTrans(k, m, 2 * i + 2); }
      }
    }
  }

  /** The walk is in pre-order: no node is visited behind one that it has to come before. */
  lemma {:induction false} PreOrderIsPre(i: nat, n: nat, p: nat, q: nat)
    requires p < q < |PreOrder(i, n)|
    ensures !Before(PreOrder(i, n)[q], PreOrder(i, n)[p])
    decreases n - i
  {
    var l, r := PreOrder(2 * i + 1, n), PreOrder(2 * i + 2, n);
    var c := |l|;
    assert PreOrder(i, n) == [i] + l + r;
    if p == 0 {
      VisitsUnder(i, n, q);
      RootFirst(i, PreOrder(i, n)[q]);
    } else if q <= c {
      PreOrderIsPre(2 * i + 1, n, p - 1, q - 1);
    } else if p > c {
      PreOrderIsPre(2 * i + 2, n, p - 1 - c, q - 1 - c);
    } else {
      VisitsUnder(2 * i + 1, n, p - 1);
      VisitsUnder(2 * i + 2, n, q - 1 - c);
      LeftFirst(i, l[p - 1], r[q - 1 - c]);
    }
  }

  /** node.String(): a nil entry has the empty string. */
  function Text(entry: Option<string>): string {
    if entry == None then "" else entry.value
  }

  /** One entry in its brackets; an entry with an empty string prints nothing. */
  function Entry(input: seq<Option<string>>, k: nat): string {
    if k < |input| && Text(input[k]) != "" then "-[" + Text(input[k]) + "]" else ""
  }

  function Print(input: seq<Option<string>>, visits: seq<nat>): string {
    if visits == [] then "" else Entry(input, visits[0]) + Print(input, visits[1..])
  }

  lemma {:induction false} PrintAppend(input: seq<Option<string>>, a: seq<nat>, b: seq<nat>)
    ensures Print(input, a + b) == Print(input, a) + Print(input, b)
  {
    if a == [] {
      assert a + b == b;
    } else {
      assert (a + b)[1..] == a[1..] + b;
      PrintAppend(input, a[1..], b);
    }
  }

  lemma PrintSplit(input: seq<Option<string>>, i: nat)
    ensures Print(input, PreOrder(i, |input|)) ==
              if i >= |input| then ""
              else
                Entry(input, i) + Print(input, PreOrder(2 * i + 1, |input|))
                + Print(input, PreOrder(2 * i + 2, |input|))
  {
    if i < |input| {
      var l, r := PreOrder(2 * i + 1, |input|), PreOrder(2 * i + 2, |input|);
      PrintAppend(input, [i] + l, r);
      PrintAppend(input, [i], l);
    }
  }

  /** completebt.go's `Literal`: the entries in pre-order, each in its brackets. */
  function Literal(node: Node?, ghost input: seq<Option<string>>, ghost i: nat, ghost root: nat,
                   ghost repr: set<Node>): (s: string)
    requires Built(input, root, repr)
    requires if node == null then i >= |input| else node in repr && node.index == i
    reads repr
    ensures s == Print(input, PreOrder(i, |input|))
    decreases if i < |input| then |input| - i else 0, node != null
  {
    PrintSplit(input, i);
    if node == null then ""
    else
      assert NodeOk(node, input, repr);
      PrintSplit(input, 2 * i + 1);
      PrintSplit(input, 2 * i + 2);
      var ns := Text(node.value);
      (if ns != "" then "-[" + ns + "]" else "")
      + Literal(node.left, input, 2 * i + 1, root, repr)
      + Literal(node.right, input, 2 * i + 2, root, repr)
  }

  // ----- reading the print back

  /** The texts that a visit of the entries prints. */
  function Shown(input: seq<Option<string>>, visits: seq<nat>): seq<string> {
    if visits == [] then []
    else
      (if visits[0] < |input| && Text(input[visits[0]]) != "" then [Text(input[visits[0]])] else [])
      + Shown(input, visits[1..])
  }

  /** Read bracketed texts; `part` is what was read of the current one, None between two of them. */
  function ReadBack(s: string, part: Option<string>): seq<string>
    decreases |s|
  {
    match part
    case None => if |s| < 2 then [] else ReadBack(s[2..], Some(""))
    case Some(t) =>
      if s == "" then [t]
      else if s == "]" || (|s| >= 3 && s[0] == ']' && s[1] == '-' && s[2] == '[') then [t] + ReadBack(s[1..], None)
      else ReadBack(s[1..], Some(t + [s[0]]))
  }

  /** No separator inside the text. */
  predicate Plain(t: string) {
    forall k :: 0 <= k && k + 2 < |t| ==> !(t[k] == ']' && t[k + 1] == '-' && t[k + 2] == '[')
  }

  /** The rest of a print, behind a text: it ends, or it goes on with the next one. */
  predicate Ahead(rest: string) {
    rest == "]" || (|rest| >= 3 && rest[0] == ']' && rest[1] == '-' && rest[2] == '[')
  }

  lemma {:induction false} ReadText(t: string, k: nat, rest: string)
    requires Plain(t) && k <= |t| && Ahead(rest)
    ensures ReadBack(t[k..] + rest, Some(t[..k])) == [t] + ReadBack(rest[1..], None)
    decreases |t| - k
  {
    var s := t[k..] + rest;
    if k == |t| {
      assert s == rest && t[..k] == t;
    } else {
      assert s[0] == t[k] && s[1..] == t[k + 1..] + rest && t[..k] + [t[k]] == t[..k + 1];
      assert |s| >= 2 && s[1] == (if k + 1 < |t| then t[k + 1] else rest[0]);
      assert |s| >= 3 ==> s[2] == (if k + 2 < |t| then t[k + 2] else rest[k + 2 - |t|]);
      ReadText(t, k + 1, rest);
    }
  }

  function Brackets(texts: seq<string>): string {
    if texts == [] then "" else "-[" + texts[0] + "]" + Brackets(texts[1..])
  }

  lemma {:induction false} PrintIsBrackets(input: seq<Option<string>>, visits: seq<nat>)
    ensures Print(input, visits) == Brackets(Shown(input, visits))
  {
    if visits != [] {
      PrintIsBrackets(input, visits[1..]);
      var rest := Shown(input, visits[1..]);
      var t := if visits[0] < |input| then Text(input[visits[0]]) else "";
      assert ([t] + rest)[1..] == rest && [] + rest == rest;
      if t != "" {
        assert Shown(input, visits) == [t] + rest && Entry(input, visits[0]) == "-[" + t + "]";
      }
    }
  }

  /** The texts can be read back from the print, unless one of them holds a separator itself. */
  lemma {:induction false} BracketsReadBack(texts: seq<string>)
    requires forall k :: 0 <= k < |texts| ==> Plain(texts[k])
    ensures ReadBack(Brackets(texts), None) == texts
  {
    if texts != [] {
      var t, later := texts[0], Brackets(texts[1..]);
      var rest := "]" + later;
      var s := Brackets(texts);
      assert s == "-[" + (t + rest);
      assert s[2..] == t + rest && t[0..] + rest == t + rest && t[..0] == "";
      assert Ahead(rest) by {
        if texts[1..] == [] { assert rest == "]"; } else { assert rest[1] == later[0] && rest[2] == later[1]; }
      }
      ReadText(t, 0, rest);
      assert rest[1..] == later;
      BracketsReadBack(texts[1..]);
    }
  }

  /** What `Literal` prints of a whole tree tells its non-empty texts in pre-order. */
  lemma LiteralReadsBack(input: seq<Option<string>>)
    requires forall k :: 0 <= k < |input| ==> Plain(Text(input[k]))
    ensures ReadBack(Print(input, PreOrder(0, |input|)), None) == Shown(input, PreOrder(0, |input|))
  {
    var visits := PreOrder(0, |input|);
    PrintIsBrackets(input, visits);
    ShownPlain(input, visits);
    BracketsReadBack(Shown(input, visits));
  }

  lemma {:induction false} ShownPlain(input: seq<Option<string>>, visits: seq<nat>)
    requires forall k :: 0 <= k < |input| ==> Plain(Text(input[k]))
    ensures forall k :: 0 <= k < |Shown(input, visits)| ==> Plain(Shown(input, visits)[k])
  {
    if visits != [] { ShownPlain(input, visits[1..]); }
  }

  /** With a separator inside a text two different trees print the same. */
  lemma SeparatorInside()
    ensures Brackets(["a]-[b"]) == Brackets(["a", "b"])
  {
    assert Brackets(["a]-[b"][1..]) == "" && Brackets(["a", "b"][1..][1..]) == "";
    assert Brackets(["a", "b"][1..]) == "-[b]";
  }
}
