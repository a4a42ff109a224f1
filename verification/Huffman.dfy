// The in-place code length construction of shared/thirdparty/miniz/miniz.c.
module Huffman {
  import opened Bits
  import opened CodeCost
  import opened HuffmanTree
  import opened HuffmanForest

  // ---------- the three phases ----------

  lemma {:induction false} SameSymsTrans(s: seq<SymFreq>, t: seq<SymFreq>, u: seq<SymFreq>, n: nat)
    requires SameSyms(s, t, n) && SameSyms(t, u, n)
    ensures SameSyms(s, u, n)
  {
  }

  lemma {:induction false} SameSymsRefl(s: seq<SymFreq>, n: nat)
    ensures SameSyms(s, s, n)
  {
  }

  lemma {:induction false} SameSymsSet(s: seq<SymFreq>, t: seq<SymFreq>, n: nat, i: nat, key: nat)
    requires SameSyms(s, t, n) && i < n && i < |t|
    ensures SameSyms(s, t[i := SymFreq(key, t[i].sym)], n)
  {
  }

  method SetKey(a: array<SymFreq>, i: nat, key: nat)
    requires i < a.Length
    modifies a
    ensures a[..] == old(a[..])[i := SymFreq(key, old(a[i].sym))]
    ensures a[i].key == key && forall j :: 0 <= j < a.Length && j != i ==> a[j] == old(a[j])
  {
    a[i] := a[i].(key := key);
  }

  // What the array holds of the two queues: nodes from root on, leaves from leaf on.
  ghost predicate InQueues(t: seq<SymFreq>, s: seq<SymFreq>, w: seq<nat>, root: nat, leaf: nat) {
    && |w| <= |t| && |s| <= |t|
    && (forall j :: root <= j < |w| ==> t[j].key == w[j])
    && (forall i :: leaf <= i < |s| ==> t[i].key == s[i].key)
  }

  lemma {:induction false} MergingStart(s: seq<SymFreq>, w: nat)
    requires |s| >= 2 && Frequencies(s) && w == s[0].key + s[1].key
    ensures w < KEY_RANGE && Merging(s, [], [w], 2)
  {
    assert LeafSum(s, 0) == s[0].key + (s[1].key + LeafSum(s, 2));
    assert NodeSum([w], 0) == w + NodeSum([w], 1);
    assert Queues(s, [w], 0, 2, s[1].key);
  }

  lemma {:induction false} FirstWeight(s: seq<SymFreq>)
    requires |s| >= 2
    ensures Weighed([s[0].key + s[1].key], [Join(Leaf(s[0]), Leaf(s[1]))])
  {
  }

  lemma {:induction false} MergingEnd(s: seq<SymFreq>, p: seq<nat>, w: seq<nat>, leaf: nat)
    requires Merging(s, p, w, leaf) && |w| == |p| + 1 && leaf == |s|
    ensures Steep(p, w) && w[|p|] == LeafSum(s, 0) < KEY_RANGE
  {
    assert NodeSum(w, |p|) == w[|p|] + NodeSum(w, |p| + 1);
  }

  // First phase: merge the two lightest remaining nodes, n - 1 times, leaving a parent
  // pointer in each internal node that has been merged. The ghost results are the parents,
  // the weights, with heights, and how many leaves were taken before each merge.
  method BuildTree(a: array<SymFreq>, n: nat)
      returns (ghost p: seq<nat>, ghost w: seq<nat>, ghost v: seq<Item>, ghost ls: seq<nat>)
    requires 2 <= n <= a.Length && n <= KEY_RANGE
    modifies a
    ensures |p| == n - 2 && Tree(p) && Points(a[..], p) && |w| == |v| == n - 1
    ensures Shape(p, ls, n) && |ls| == n
    ensures Frequencies(old(a[..n])) ==> Steep(p, w) && w[n - 2] == LeafSum(old(a[..n]), 0) < KEY_RANGE
    ensures Frequencies(old(a[..n])) ==> History(old(a[..n]), v, ls)
    ensures SameSyms(old(a[..]), a[..], n)
  {
    hide Growing, SameSyms, Points, Tree, Frequencies, Merging, Steep, Shape, History, LeafSum, Weighed, Join, Leaf;
    ghost var s := a[..n];
    if Frequencies(s) {
      MergingStart(s, a[0].key + a[1].key);
      HistoryStart(s);
      FirstWeight(s);
    }
    ShapeStart(n);
    GrowthStart(a[..], n);
    SameSymsSet(a[..], a[..], n, 0, Wrap(a[0].key + a[1].key));
    SetKey(a, 0, Wrap(a[0].key + a[1].key));
    GrowthStart(a[..], n);
    var root, leaf := 0, 2;
    p, w, v, ls := [], [a[0].key], [Join(Leaf(s[0]), Leaf(s[1]))], [0, 2];
    for next := 1 to n - 1
      invariant 0 <= root < next && 2 <= leaf <= n && root + leaf == 2 * next
      invariant |p| == root && Growing(p, next - 1) && Points(a[..], p)
      invariant |w| == next && (Frequencies(s) ==> Merging(s, p, w, leaf) && InQueues(a[..], s, w, root, leaf))
      invariant Shape(p, ls, n) && |ls| == next + 1 && ls[next] == leaf
      invariant |v| == next && (Frequencies(s) ==> History(s, v, ls) && Weighed(w, v))
      invariant SameSyms(old(a[..]), a[..], n)
    {
      ghost var t := a[..];
      root, leaf, p, w, v, ls := MergeTwo(a, n, next, root, leaf, p, w, v, ls, s);
      SameSymsTrans(old(a[..]), t, a[..], n);
    }
    Grown(p);
    if Frequencies(s) {
      MergingEnd(s, p, w, leaf);
    }
  }

  // The body of the loop of the first phase.
  method MergeTwo(a: array<SymFreq>, n: nat, next: nat, root0: nat, leaf0: nat, ghost p0: seq<nat>, ghost w0: seq<nat>,
        ghost v0: seq<Item>, ghost ls0: seq<nat>, ghost s: seq<SymFreq>)
      returns (root: nat, leaf: nat, ghost p: seq<nat>, ghost w: seq<nat>, ghost v: seq<Item>, ghost ls: seq<nat>)
    requires root0 < next < n - 1 && n <= a.Length && n <= KEY_RANGE && 2 <= leaf0 <= n && root0 + leaf0 == 2 * next
    requires |p0| == root0 && Growing(p0, next - 1) && Points(a[..], p0) && |w0| == next && |s| == n
    requires Frequencies(s) ==> Merging(s, p0, w0, leaf0) && InQueues(a[..], s, w0, root0, leaf0)
    requires Shape(p0, ls0, n) && |ls0| == next + 1 && ls0[next] == leaf0
    requires |v0| == next && (Frequencies(s) ==> History(s, v0, ls0) && Weighed(w0, v0))
    modifies a
    ensures root <= next && leaf0 <= leaf <= n && root + leaf == 2 * next + 2
    ensures |p| == root && Growing(p, next) && Points(a[..], p) && |w| == next + 1
    ensures Frequencies(s) ==> Merging(s, p, w, leaf) && InQueues(a[..], s, w, root, leaf)
    ensures Shape(p, ls, n) && |ls| == next + 2 && ls[next + 1] == leaf
    ensures |v| == next + 1 && (Frequencies(s) ==> History(s, v, ls) && Weighed(w, v))
    ensures SameSyms(old(a[..]), a[..], n)
  {
    hide Growing, SameSyms, Points, Frequencies, Merging, Steep, InQueues, Wrap, Shape, History, Queues, Untouched;
    ghost var x, y;
    root, leaf, p, x := TakeFirst(a, n, next, root0, leaf0, p0, w0, s);
    if Frequencies(s) {
      QueueFronts(old(a[..]), a[..], s, w0, root0, root, leaf0, leaf);
    }
    ghost var p1, root1, leaf1, t := p, root, leaf, a[..];
    Grow(p0, next - 1, p);
    if leaf >= n || (root < next && a[root].key < a[leaf].key) {
      y := a[root].key;
      p := TakeRoot(a, n, next, root, a[next].key, p);
      root := root + 1;
    } else {
      y := a[leaf].key;
      TakeLeaf(a, n, next, root, leaf, a[next].key, p);
      leaf := leaf + 1;
    }
    SameSymsTrans(old(a[..]), t, a[..], n);
    w, ls := w0 + [x + y], ls0 + [leaf];
    v := v0 + [Item(0, 0)];
    ShapeStep(p0, ls0, n, p, leaf);
    if Frequencies(s) {
      v := MergeAll(s, p0, w0, v0, ls0, p1, leaf1, x, p, leaf, y);
      UntouchedTrans(old(a[..]), t, a[..], root1, root, next);
      QueuesKept(old(a[..]), a[..], s, w0, x + y, root0, root, leaf0, leaf);
    }
  }

  // What is taken first.
  method TakeFirst(a: array<SymFreq>, n: nat, next: nat, root0: nat, leaf0: nat, ghost p0: seq<nat>, ghost w0: seq<nat>,
        ghost s: seq<SymFreq>)
      returns (root: nat, leaf: nat, ghost p: seq<nat>, ghost x: nat)
    requires root0 < next < n - 1 && n <= a.Length && n <= KEY_RANGE && 2 <= leaf0 <= n && root0 + leaf0 == 2 * next
    requires |p0| == root0 && Points(a[..], p0) && |w0| == next && |s| == n
    requires Frequencies(s) ==> InQueues(a[..], s, w0, root0, leaf0)
    modifies a
    ensures |p| == root <= next && root0 <= root && leaf0 <= leaf <= n && root + leaf == 2 * next + 1
    ensures Points(a[..], p) && (p == p0 || p == p0 + [next])
    ensures a[next].key == Wrap(x) && Untouched(old(a[..]), a[..], root, next)
    ensures Frequencies(s) ==> Taken(s, w0, p0, leaf0, p, leaf, x)
    ensures SameSyms(old(a[..]), a[..], n)
  {
    hide SameSyms, Points, Frequencies, InQueues, Wrap, Untouched;
    if Frequencies(s) {
      UntouchedRefl(a[..], root0, next);
      QueueFronts(a[..], a[..], s, w0, root0, root0, leaf0, leaf0);
    }
    root, leaf, p := root0, leaf0, p0;
    if leaf >= n || a[root].key < a[leaf].key {
      x := a[root].key;
      p := TakeRoot(a, n, next, root, 0, p);
      root := root + 1;
    } else {
      x := a[leaf].key;
      TakeLeaf(a, n, next, root, leaf, 0, p);
      leaf := leaf + 1;
    }
  }

  lemma {:induction false} MergeAll(s: seq<SymFreq>, p: seq<nat>, w: seq<nat>, v: seq<Item>, ls: seq<nat>, p1: seq<nat>,
        leaf1: nat, x: nat, p2: seq<nat>, leaf2: nat, y: nat)
      returns (v': seq<Item>)
    requires |w| >= 1 && Shape(p, ls, |s|) && |ls| == |w| + 1 && Growing(p, |w| - 1) && |p| < |w| && |p2| <= |w|
    requires Merging(s, p, w, ls[|w|]) && History(s, v, ls) && Weighed(w, v)
    requires Taken(s, w, p, ls[|w|], p1, leaf1, x) && Taken(s, w, p1, leaf1, p2, leaf2, y)
    ensures Wrap(x) == x && Wrap(x + y) == x + y && Merging(s, p2, w + [x + y], leaf2)
    ensures |v'| == |w| + 1 && History(s, v', ls + [leaf2]) && Weighed(w + [x + y], v')
  {
    hide Merging, History, Shape, Growing, Queues, Wrap, Taken, Front, Frequencies;
    Merge(s, p, w, ls[|w|], p1, leaf1, x, p2, leaf2, y);
    assert Frequencies(s) by { MergingFrequencies(s, p, w, ls[|w|]); }
    OneMoreMerge(s, w, v, ls, p, p1, leaf1, x, p2, leaf2, y);
    FrontsExist(s, w, p, ls[|w|], p1, leaf1, x, p2, leaf2, y);
    v' := v + [Join(Front(s, v, p, ls[|w|], p1), Front(s, v, p1, leaf1, p2))];
    WrapSmall(x);
    WrapSmall(x + y);
  }

  lemma {:induction false} MergingFrequencies(s: seq<SymFreq>, p: seq<nat>, w: seq<nat>, leaf: nat)
    requires Merging(s, p, w, leaf)
    ensures Frequencies(s)
  {
  }

  lemma {:induction false} QueueFronts(t: seq<SymFreq>, t': seq<SymFreq>, s: seq<SymFreq>, w: seq<nat>, root: nat,
        root': nat, leaf: nat, leaf': nat)
    requires InQueues(t, s, w, root, leaf) && Untouched(t, t', root', |w|) && root <= root' <= |w| < leaf'
    requires leaf <= leaf'
    ensures |t'| == |t| && (root' < |w| ==> t'[root'].key == w[root'])
    ensures (leaf' < |s| ==> t'[leaf'].key == s[leaf'].key)
  {
  }

  lemma {:induction false} QueuesKept(t: seq<SymFreq>, t': seq<SymFreq>, s: seq<SymFreq>, w: seq<nat>, x: nat,
        root: nat, root': nat, leaf: nat, leaf': nat)
    requires InQueues(t, s, w, root, leaf) && |t| == |t'| && root <= root' <= |w| < |s| && leaf <= leaf' && |w| < leaf'
    requires t'[|w|].key == x && Untouched(t, t', root', |w|)
    ensures InQueues(t', s, w + [x], root', leaf')
  {
  }

  // The array has changed at next and before root only.
  ghost predicate Untouched(t: seq<SymFreq>, t': seq<SymFreq>, root: nat, next: nat) {
    |t'| == |t| && forall j :: root <= j < |t| && j != next ==> t'[j] == t[j]
  }

  lemma {:induction false} UntouchedRefl(t: seq<SymFreq>, root: nat, next: nat)
    ensures Untouched(t, t, root, next)
  {
  }

  lemma {:induction false} UntouchedTrans(t: seq<SymFreq>, t': seq<SymFreq>, t'': seq<SymFreq>, root: nat, root': nat,
        next: nat)
    requires Untouched(t, t', root, next) && Untouched(t', t'', root', next) && root <= root'
    ensures Untouched(t, t'', root', next)
  {
  }

  // The oldest unmerged internal node becomes a child of the new node.
  method TakeRoot(a: array<SymFreq>, n: nat, next: nat, root: nat, sum: nat, ghost p: seq<nat>)
      returns (ghost p': seq<nat>)
    requires root < next < n <= a.Length && n <= KEY_RANGE && |p| == root && Points(a[..], p)
    modifies a
    ensures p' == p + [next] && Points(a[..], p')
    ensures a[next].key == Wrap(sum + old(a[root].key))
    ensures forall j :: 0 <= j < a.Length && j != root && j != next ==> a[j] == old(a[j])
    ensures Untouched(old(a[..]), a[..], root + 1, next)
    ensures SameSyms(old(a[..]), a[..], n)
  {
    a[next] := a[next].(key := Wrap(sum + a[root].key));
    a[root] := a[root].(key := Wrap(next));
    p' := p + [next];
  }

  // The lightest unmerged leaf does.
  method TakeLeaf(a: array<SymFreq>, n: nat, next: nat, ghost root: nat, leaf: nat, sum: nat, ghost p: seq<nat>)
    requires next < n <= a.Length && leaf < n && |p| <= next && Points(a[..], p)
    modifies a
    ensures Points(a[..], p)
    ensures a[next].key == Wrap(sum + old(a[leaf].key))
    ensures forall j :: 0 <= j < a.Length && j != next ==> a[j] == old(a[j])
    ensures Untouched(old(a[..]), a[..], root, next)
    ensures SameSyms(old(a[..]), a[..], n)
  {
    a[next] := a[next].(key := Wrap(sum + a[leaf].key));
  }

  ghost predicate Depths(s: seq<SymFreq>, p: seq<nat>, low: int)
    requires Tree(p) && |p| < |s|
  {
    forall j: nat :: low < j <= |p| ==> s[j].key == Depth(p, j)
  }

  // Second phase: replace parent pointers by depths, from the root down.
  method FindDepths(a: array<SymFreq>, n: nat, ghost p: seq<nat>)
    requires 2 <= n <= a.Length && |p| == n - 2 && Tree(p) && Points(a[..], p)
    modifies a
    ensures Depths(a[..], p, -1)
    ensures SameSyms(old(a[..]), a[..], n)
  {
    SetKey(a, n - 2, 0);
    var next := n - 3;
    while next >= 0
      invariant -1 <= next <= n - 3
      invariant forall j :: 0 <= j <= next ==> a[j].key == p[j]
      invariant Depths(a[..], p, next)
      invariant SameSyms(old(a[..]), a[..], n)
    {
      SetKey(a, next, a[a[next].key].key + 1);
      next := next - 1;
    }
  }

  // Leaves have been handed out from the end of the array down to index next + 1: they use
  // up all but avbl of the code space at depth dpth, in units of 2^-top.
  ghost predicate Assigned(s: seq<SymFreq>, n: nat, top: nat, next: int, avbl: nat, dpth: nat) {
    && 2 <= n <= |s| && -1 <= next < n
    && (forall i :: next < i < n ==> 1 <= s[i].key <= top && s[i].key <= dpth)
    && (forall i, j :: next < i < j < n ==> s[i].key >= s[j].key)
    && (avbl > 0 ==> dpth <= top)
    && Kraft(s[next + 1..n], top) + (if avbl > 0 then avbl * Pow2(top - dpth) else 0) == Pow2(top)
  }

  lemma {:induction false} AssignLeaf(s: seq<SymFreq>, n: nat, top: nat, next: nat, avbl: nat, dpth: nat)
    requires Assigned(s, n, top, next, avbl, dpth) && avbl > 0 && dpth >= 1
    ensures next < n && dpth <= top
    ensures Assigned(s[next := SymFreq(dpth, s[next].sym)], n, top, next - 1, avbl - 1, dpth)
  {
    var t := s[next := SymFreq(dpth, s[next].sym)];
    assert t[next..n][1..] == s[next + 1..n];
    assert avbl * Pow2(top - dpth) == (avbl - 1) * Pow2(top - dpth) + Pow2(top - dpth);
  }

  lemma {:induction false} NextDepth(s: seq<SymFreq>, n: nat, top: nat, next: int, used: nat, dpth: nat)
    requires Assigned(s, n, top, next, used, dpth) && (used > 0 ==> dpth < top)
    ensures Assigned(s, n, top, next, 2 * used, dpth + 1)
  {
    if used > 0 {
      assert Pow2(top - dpth) == 2 * Pow2(top - (dpth + 1));
      assert used * (2 * Pow2(top - (dpth + 1))) == (2 * used) * Pow2(top - (dpth + 1));
    }
  }

  // Before each level: the internal nodes up to root are not above depth dpth, and the
  // avbl nodes of that depth are the children of the internal nodes root + 1 .. high.
  ghost predicate Level(p: seq<nat>, root: int, high: int, avbl: nat, dpth: nat)
    requires Tree(p)
  {
    && -1 <= root <= high <= |p|
    && (forall j: nat :: j <= root ==> Depth(p, j) >= dpth)
    && (forall j: nat :: root < j <= |p| ==> Depth(p, j) < dpth)
    && (forall j: nat :: high < j <= |p| ==> Depth(p, j) < dpth - 1)
    && (forall j: nat :: j <= high ==> Depth(p, j) + 1 >= dpth)
    && if dpth == 0 then avbl == 1 && root == |p| else avbl == 2 * (high - root)
  }

  // The nodes that the counting loop of a level passes are internal nodes of its depth:
  // there are some unless none is left, and no more than avbl.
  lemma {:induction false} LevelCount(p: seq<nat>, root: int, high: int, avbl: nat, dpth: nat, low: int)
    requires Tree(p) && Level(p, root, high, avbl, dpth) && -1 <= low <= root
    requires forall j: nat :: low < j <= root ==> Depth(p, j) == dpth
    requires low >= 0 ==> Depth(p, low) != dpth
    ensures root - low <= avbl
    ensures root >= 0 ==> low < root
    ensures Level(p, low, root, 2 * (root - low), dpth + 1)
  {
    if dpth == 0 {
      if low < |p| - 1 {
        assert Depth(p, |p| - 1) != 0;
      }
    } else {
      forall j | low < j <= root
        ensures root < p[j] <= high
      {
        assert Depth(p, j) == Depth(p, p[j]) + 1;
      }
      LevelBound(p, low, root, high);
      if root >= 0 {
        assert Depth(p, root) == Depth(p, p[root]) + 1;
      }
    }
    forall j: nat | j <= low
      ensures Depth(p, j) >= dpth + 1
    {
      DepthFalls(p, j, low);
    }
  }

  // What tdefl_calculate_minimum_redundancy leaves behind for two or more symbols: the
  // lengths of a complete code, none longer for a later, more frequent symbol.
  ghost predicate CompleteLengths(s: seq<SymFreq>, top: nat) {
    && (forall i :: 0 <= i < |s| ==> 1 <= s[i].key <= top)
    && (forall i, j :: 0 <= i < j < |s| ==> s[i].key >= s[j].key)
    && Kraft(s, top) == Pow2(top)
  }

  lemma {:induction false} AssignStart(s: seq<SymFreq>, n: nat, p: seq<nat>, top: nat)
    requires 2 <= n <= |s| && |p| == n - 2 && Tree(p)
    ensures Assigned(s, n, top, n - 1, 1, 0) && Level(p, n - 2, n - 2, 1, 0) && SameSyms(s, s, n)
  {
    DepthsPositive(p);
  }

  lemma {:induction false} DepthsPositive(p: seq<nat>)
    requires Tree(p)
    ensures forall j: nat :: j < |p| ==> Depth(p, j) >= 1
  {
  }

  lemma {:induction false} DepthBound(p: seq<nat>, j: nat)
    requires Tree(p) && j <= |p|
    ensures Depth(p, j) <= |p| - j
    decreases |p| - j
  {
    if j < |p| {
      DepthBound(p, p[j]);
    }
  }

  lemma {:induction false} AssignEnd(s: seq<SymFreq>, n: nat, top: nat, dpth: nat)
    requires Assigned(s, n, top, -1, 0, dpth)
    ensures CompleteLengths(s[..n], top)
  {
    assert s[0..n] == s[..n];
  }

  // The leaves of one level.
  method GiveLeaves(a: array<SymFreq>, n: nat, ghost top: nat, next0: int, avbl0: nat, used: nat, dpth: nat)
      returns (next: int, avbl: nat)
    requires n <= a.Length && top < KEY_RANGE && used <= avbl0 && next0 - avbl0 + used >= -1
    requires Assigned(a[..], n, top, next0, avbl0, dpth) && (dpth == 0 ==> avbl0 == used)
    modifies a
    ensures avbl == used && next == next0 - avbl0 + used
    ensures Assigned(a[..], n, top, next, avbl, dpth)
    ensures forall j :: 0 <= j < a.Length && (j <= next || j > next0) ==> a[j] == old(a[j])
    ensures forall j :: next < j <= next0 && 0 <= j < a.Length ==> a[j].key == dpth
    ensures SameSyms(old(a[..]), a[..], n)
  {
    hide Assigned, SameSyms;
    next, avbl := next0, avbl0;
    SameSymsRefl(a[..], n);
    while avbl > used
      invariant used <= avbl && next - avbl == next0 - avbl0
      invariant Assigned(a[..], n, top, next, avbl, dpth)
      invariant next <= next0 && forall j :: 0 <= j < a.Length && (j <= next || j > next0) ==> a[j] == old(a[j])
      invariant forall j :: next < j <= next0 && 0 <= j < a.Length ==> a[j].key == dpth
      invariant SameSyms(old(a[..]), a[..], n)
    {
      AssignLeaf(a[..], n, top, next, avbl, dpth);
      WrapSmall(dpth);
      SameSymsSet(old(a[..]), a[..], n, next, Wrap(dpth));
      SetKey(a, next, Wrap(dpth));
      next := next - 1;
      avbl := avbl - 1;
    }
  }

  // Third phase: level by level, the nodes that are not internal are leaves. The longest
  // code is one bit longer than the deepest internal node is deep.
  method AssignLengths(a: array<SymFreq>, n: nat, ghost p: seq<nat>, ghost ls: seq<nat>)
    requires 2 <= n <= a.Length && n <= KEY_RANGE && |p| == n - 2 && Tree(p)
    requires Depths(a[..], p, -1) && Shape(p, ls, n) && |ls| == n
    modifies a
    ensures CompleteLengths(a[..n], Depth(p, 0) + 1) && LeafDepths(p, ls, a[..n])
    ensures SameSyms(old(a[..]), a[..], n)
  {
    hide Assigned, SameSyms, CompleteLengths, Level, Tree, Depth, Shape, LeavesGiven, LeafDepths, Depths;
    KeysAreDepths(a[..], p);
    ghost var top := Depth(p, 0) + 1;
    DepthBound(p, 0);
    var avbl, used, dpth := 1, 0, 0;
    var root, next := n - 2, n - 1;
    ghost var high := n - 2;
    AssignStart(a[..], n, p, top);
    AllLeaves(p, ls, a[..], n);
    while avbl > 0
      invariant next == root + avbl < n && used == 0 && avbl >= 0 && dpth >= 0
      invariant dpth == 0 ==> avbl == 1 && root == n - 2
      invariant avbl == 0 ==> root == -1
      invariant -1 <= root <= n - 2 && Level(p, root, high, avbl, dpth)
      invariant Assigned(a[..], n, top, next, avbl, dpth)
      invariant forall j: nat :: j <= root ==> a[j].key == Depth(p, j)
      invariant root <= high <= n - 2 && next + 1 == ls[high + 1] && LeavesGiven(p, ls, a[..], next, n)
      invariant SameSyms(old(a[..]), a[..], n)
      decreases root + 1, avbl
    {
      ghost var root0 := root;
      while root >= 0 && a[root].key == dpth
        invariant -1 <= root <= root0 && used == root0 - root
        invariant forall j: nat :: root < j <= root0 ==> Depth(p, j) == dpth
      {
        used := used + 1;
        root := root - 1;
      }
      LevelCount(p, root0, high, avbl, dpth, root);
      assert Level(p, root, root0, 2 * used, dpth + 1);
      if root0 >= 0 {
        DepthFalls(p, 0, root0);
      }
      ghost var t, next0, avbl0 := a[..], next, avbl;
      LevelBoundary(p, ls, n, root0, root, high, avbl, dpth);
      next, avbl := GiveLeaves(a, n, top, next, avbl, used, dpth);
      LevelGiven(p, ls, t, a[..], n, root0, high, avbl0, dpth, next0, next);
      SameSymsTrans(old(a[..]), t, a[..], n);
      NextDepth(a[..], n, top, next, used, dpth);
      high := root0;
      avbl := 2 * used;
      dpth := dpth + 1;
      used := 0;
    }
    AssignEnd(a[..], n, top, dpth);
    AllGiven(p, ls, a[..], n);
  }

  lemma {:induction false} KeysAreDepths(s: seq<SymFreq>, p: seq<nat>)
    requires Tree(p) && |p| < |s| && Depths(s, p, -1)
    ensures forall j: nat :: j <= |p| ==> s[j].key == Depth(p, j)
  {
  }

  // Leaves behind next have got their depths in the tree.
  ghost predicate LeavesGiven(p: seq<nat>, ls: seq<nat>, s: seq<SymFreq>, next: int, n: nat)
    requires Tree(p) && n <= |s|
  {
    forall i: nat, k: nat :: next < i < n && k <= |p| && LeafOf(ls, i, k) ==> s[i].key == Depth(p, k) + 1
  }

  lemma {:induction false} AllLeaves(p: seq<nat>, ls: seq<nat>, s: seq<SymFreq>, n: nat)
    requires Tree(p) && Shape(p, ls, n) && |s| >= |ls| == n >= 2 && |p| == n - 2
    ensures ls[n - 1] == n && LeavesGiven(p, ls, s, n - 1, n)
  {
    assert Rs(ls, |ls| - 1) == |p|;
  }

  lemma {:induction false} AllGiven(p: seq<nat>, ls: seq<nat>, s: seq<SymFreq>, n: nat)
    requires Tree(p) && n <= |s| && LeavesGiven(p, ls, s, -1, n)
    ensures LeafDepths(p, ls, s[..n])
  {
    hide Depth, Tree, LeafOf;
  }

  // The nodes of a level have the parents behind root, and so have the leaves from
  // ls[root + 1] on.
  lemma {:induction false} LevelBoundary(p: seq<nat>, ls: seq<nat>, n: nat, root: int, low: int, high: int, avbl: nat,
        dpth: nat)
    requires Tree(p) && Shape(p, ls, n) && |ls| == n && |p| == n - 2 && Level(p, root, high, avbl, dpth)
    requires -1 <= low <= root && Level(p, low, root, 2 * (root - low), dpth + 1)
    ensures ls[root + 1] == 2 * root - low + 1
  {
    if low >= 0 && low < |p| {
      BelowParent(p, root, low, dpth);
      assert ParentIs(ls, low, p[low]);
      assert Rs(ls, p[low] + 1) <= Rs(ls, root + 1);
    }
    if low + 1 < |p| {
      AboveParent(p, root, low, dpth);
      assert ParentIs(ls, low + 1, p[low + 1]);
      assert Rs(ls, root + 1) <= Rs(ls, p[low + 1]);
    } else {
      assert Rs(ls, root + 1) <= Rs(ls, |ls| - 1) == |p|;
    }
  }

  lemma {:induction false} BelowParent(p: seq<nat>, root: int, low: nat, dpth: nat)
    requires Tree(p) && low < |p| && Depth(p, low) >= dpth + 1
    requires forall j: nat :: root < j <= |p| ==> Depth(p, j) < dpth
    ensures p[low] <= root
  {
  }

  lemma {:induction false} AboveParent(p: seq<nat>, root: int, low: int, dpth: nat)
    requires Tree(p) && -1 <= low && low + 1 < |p| && Depth(p, low + 1) < dpth + 1
    requires forall j: nat :: j <= root && j <= |p| ==> Depth(p, j) >= dpth
    ensures p[low + 1] > root
  {
  }

  // The leaves of a level have their parents in the level above.
  lemma {:induction false} LevelGiven(p: seq<nat>, ls: seq<nat>, t: seq<SymFreq>, t': seq<SymFreq>, n: nat, root: int,
        high: int, avbl: nat, dpth: nat, next0: int, next: int)
    requires Tree(p) && Shape(p, ls, n) && |ls| == n <= |t| == |t'| && -1 <= root <= high <= |p| == n - 2
    requires Level(p, root, high, avbl, dpth)
    requires next0 + 1 == ls[high + 1] && next + 1 == ls[root + 1] && LeavesGiven(p, ls, t, next0, n)
    requires (forall j :: next0 < j < |t| && 0 <= j ==> t'[j] == t[j])
    requires forall j :: next < j <= next0 && 0 <= j < |t| ==> t'[j].key == dpth
    ensures LeavesGiven(p, ls, t', next, n)
  {
    hide Depth, Tree;
    forall i: nat, k: nat | next < i < n && k <= |p| && LeafOf(ls, i, k)
      ensures t'[i].key == Depth(p, k) + 1
    {
      if i <= next0 {
        LeafParentIn(p, ls, n, i, k, root, high);
      }
    }
  }

  lemma {:induction false} LeafParentIn(p: seq<nat>, ls: seq<nat>, n: nat, i: nat, k: nat, root: int, high: int)
    requires Shape(p, ls, n) && LeafOf(ls, i, k) && -1 <= root <= high && high + 1 < |ls|
    requires ls[root + 1] <= i < ls[high + 1]
    ensures root < k <= high
  {
  }

  // tdefl_calculate_minimum_redundancy, whatever the weights are
  method CalculateMinimumRedundancy(a: array<SymFreq>, n: nat) returns (ghost top: nat)
    requires n <= a.Length && n <= KEY_RANGE
    modifies a
    ensures n == 1 ==> a[0].key == 1
    ensures n >= 2 ==> CompleteLengths(a[..n], top) && a[0].key == top <= n - 1
    ensures n >= 2 && Frequencies(old(a[..n])) ==> top <= 22 && Fib(top + 2) <= LeafSum(old(a[..n]), 0)
    ensures n >= 2 && Frequencies(old(a[..n])) ==> Minimum(Keys(old(a[..n])), Keys(a[..n]))
    ensures n >= 2 && Frequencies(old(a[..n])) ==> Reaches(Keys(old(a[..n])), Keys(a[..n]), top)
    ensures SameSyms(old(a[..]), a[..], n)
  {
    hide Minimum, Reaches, Frequencies, History, Shape, Tree, Steep, Depths, LeafDepths, CompleteLengths, SameSyms,
      Points, Keys, Fib, LeafSum;
    top := 1;
    SameSymsRefl(a[..], n);
    if n == 0 {
      return;
    } else if n == 1 {
      SameSymsSet(a[..], a[..], n, 0, 1);
      SetKey(a, 0, 1);
      return;
    }
    ghost var p, w, v, ls := BuildTree(a, n);
    ghost var t := a[..];
    FindDepths(a, n, p);
    SameSymsTrans(old(a[..]), t, a[..], n);
    t := a[..];
    AssignLengths(a, n, p, ls);
    FirstLength(p, ls, a[..n]);
    SameSymsTrans(old(a[..]), t, a[..], n);
    if Frequencies(old(a[..n])) {
      ShallowTree(p, w);
      DeepTreesAreHeavy(p, w);
      TreeIsMinimum(old(a[..n]), v, ls, p, a[..n]);
    }
    DepthBound(p, 0);
    top := Depth(p, 0) + 1;
  }

  // The first leaf is in the first merge, so that its length is the longest.
  lemma {:induction false} FirstLength(p: seq<nat>, ls: seq<nat>, t: seq<SymFreq>)
    requires Tree(p) && Shape(p, ls, |t|) && |ls| == |t| >= 2 && LeafDepths(p, ls, t)
    ensures t[0].key == Depth(p, 0) + 1
  {
    assert LeafOf(ls, 0, 0);
  }
}
