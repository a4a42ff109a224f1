// The trees behind the code length construction of shared/thirdparty/miniz/miniz.c: internal
// nodes with parent pointers, and the weights that make them shallow.
module HuffmanTree {
  import opened Bits

  datatype SymFreq = SymFreq(key: nat, sym: nat)

  const KEY_RANGE: nat := 0x1_0000

  // mz_uint16
  function Wrap(x: nat): nat {
    x % KEY_RANGE
  }

  lemma {:induction false} WrapSmall(x: nat)
    requires x < KEY_RANGE
    ensures Wrap(x) == x
  {
  }

  // The Kraft sum of code lengths, in units of 2^-top.
  ghost function Kraft(s: seq<SymFreq>, top: nat): nat
    requires forall i :: 0 <= i < |s| ==> s[i].key <= top
  {
    if s == [] then 0 else Pow2(top - s[0].key) + Kraft(s[1..], top)
  }

  // ---------- the tree as a sequence of parent pointers ----------

  // Internal node j < |p| has parent p[j]; node |p| is the root. Parents come later, in
  // order, and none has more than two internal children.
  ghost predicate Tree(p: seq<nat>) {
    && (forall j :: 0 <= j < |p| ==> j < p[j] <= |p|)
    && (forall i, j :: 0 <= i < j < |p| ==> p[i] <= p[j])
    && (forall j :: 0 <= j < |p| - 2 ==> p[j] < p[j + 2])
  }

  ghost function Depth(p: seq<nat>, j: nat): nat
    requires Tree(p) && j <= |p|
    decreases |p| - j
  {
    if j == |p| then 0 else Depth(p, p[j]) + 1
  }

  // Internal depths do not grow with the index.
  lemma {:induction false} DepthFalls(p: seq<nat>, i: nat, j: nat)
    requires Tree(p) && i <= j <= |p|
    ensures Depth(p, i) >= Depth(p, j)
    decreases |p| - i
  {
    if i < j < |p| {
      DepthFalls(p, p[i], p[j]);
    }
  }

  lemma {:induction false} Spread(p: seq<nat>, j: nat, k: nat)
    requires Tree(p) && j + 2 * k < |p|
    ensures p[j] + k <= p[j + 2 * k]
  {
    if k > 0 {
      Spread(p, j, k - 1);
      assert p[j + 2 * (k - 1)] < p[j + 2 * (k - 1) + 2];
    }
  }

  // The internal nodes low + 1 .. mid, with parents among mid + 1 .. high, are at most
  // twice as many as these.
  lemma {:induction false} LevelBound(p: seq<nat>, low: int, mid: int, high: int)
    requires Tree(p) && -1 <= low <= mid <= high <= |p| && mid < |p|
    requires forall j :: low < j <= mid ==> mid < p[j] <= high
    ensures mid - low <= 2 * (high - mid)
  {
    if low < mid {
      var k := (mid - low - 1) / 2;
      Spread(p, low + 1, k);
      var last := low + 1 + 2 * k;
      assert p[last] <= high;
    }
  }

  // A tree under construction, where parents up to bound exist.
  ghost predicate Growing(p: seq<nat>, bound: nat) {
    && |p| <= bound
    && (forall j :: 0 <= j < |p| ==> j < p[j] <= bound)
    && (forall i, j :: 0 <= i < j < |p| ==> p[i] <= p[j])
    && (forall j :: 0 <= j < |p| - 2 ==> p[j] < p[j + 2])
  }

  // Node |p| gets the newest node as its parent, as the first or second to do so.
  lemma {:induction false} Grow(p: seq<nat>, bound: nat, p': seq<nat>)
    requires Growing(p, bound)
    requires p' == p || (p' == p + [bound + 1] && |p| <= bound)
    ensures Growing(p', bound + 1)
    ensures |p'| < bound + 1 ==> Growing(p' + [bound + 1], bound + 1)
  {
  }

  lemma {:induction false} GrowthStart(s: seq<SymFreq>, n: nat)
    ensures Growing([], 0) && Points(s, []) && SameSyms(s, s, n)
  {
  }

  lemma {:induction false} Grown(p: seq<nat>)
    requires Growing(p, |p|)
    ensures Tree(p)
  {
  }

  // The first a[j] of the array are parent pointers.
  ghost predicate Points(s: seq<SymFreq>, p: seq<nat>) {
    |p| <= |s| && forall j :: 0 <= j < |p| ==> s[j].key == p[j]
  }

  // The array differs from s only in the keys of its first n entries.
  ghost predicate SameSyms(s: seq<SymFreq>, t: seq<SymFreq>, n: nat) {
    |s| == |t| && forall j :: 0 <= j < |s| ==> s[j].sym == t[j].sym && (j >= n ==> s[j] == t[j])
  }

  // ---------- the weights behind the tree ----------

  // What the caller sorts: positive weights in order, with a sum that fits 16 bits.
  ghost predicate Frequencies(s: seq<SymFreq>) {
    && (forall i :: 0 <= i < |s| ==> s[i].key >= 1)
    && (forall i, j :: 0 <= i < j < |s| ==> s[i].key <= s[j].key)
    && LeafSum(s, 0) < KEY_RANGE
  }

  ghost function LeafSum(s: seq<SymFreq>, from: nat): nat
    requires from <= |s|
    decreases |s| - from
  {
    if from == |s| then 0 else s[from].key + LeafSum(s, from + 1)
  }

  ghost function NodeSum(w: seq<nat>, from: nat): nat
    requires from <= |w|
    decreases |w| - from
  {
    if from == |w| then 0 else w[from] + NodeSum(w, from + 1)
  }

  lemma {:induction false} NodeSumAppend(w: seq<nat>, x: nat, from: nat)
    requires from <= |w|
    ensures NodeSum(w + [x], from) == NodeSum(w, from) + x
    decreases |w| - from
  {
    if from < |w| {
      NodeSumAppend(w, x, from + 1);
    } else {
      assert NodeSum(w + [x], from + 1) == 0;
    }
  }

  // Everything merged so far weighs at most b, everything still to be merged at least b.
  ghost predicate Queues(s: seq<SymFreq>, w: seq<nat>, root: nat, leaf: nat, b: nat) {
    && root <= |w| && leaf <= |s|
    && (forall i, j :: 0 <= i < j < |w| ==> w[i] <= w[j])
    && (forall j :: 0 <= j < root ==> w[j] <= b)
    && (forall j :: root <= j < |w| ==> b <= w[j])
    && (forall i :: leaf <= i < |s| ==> b <= s[i].key)
    && (forall i :: 0 <= i < leaf ==> s[i].key <= b)
  }

  // A parent outweighs its child and any node merged before the child together.
  ghost predicate Steep(p: seq<nat>, w: seq<nat>) {
    && (forall j :: 0 <= j < |w| ==> w[j] >= 2)
    && (forall j :: 0 <= j < |p| && p[j] < |w| ==> j < |w| && w[p[j]] >= w[j] + 1)
    && (forall j, k :: 0 <= j < |p| && 0 <= k < |p| && k < |w| && p[k] < p[j] < |w| ==> w[p[j]] >= w[j] + w[k])
  }

  // All of the weight is in the nodes and leaves that are still to be merged.
  ghost predicate Conserved(s: seq<SymFreq>, w: seq<nat>, root: nat, leaf: nat, taken: nat) {
    && root <= |w| && leaf <= |s|
    && taken + NodeSum(w, root) + LeafSum(s, leaf) == LeafSum(s, 0)
  }

  ghost predicate Merging(s: seq<SymFreq>, p: seq<nat>, w: seq<nat>, leaf: nat) {
    && Frequencies(s) && |w| >= 1
    && Steep(p, w) && Conserved(s, w, |p|, leaf, 0)
    && exists b: nat :: Queues(s, w, |p|, leaf, b) && w[|w| - 1] <= 2 * b && b >= 1
  }

  // The two lightest of the remaining nodes and leaves are merged: x is taken, then y.
  lemma {:induction false} Merge(s: seq<SymFreq>, p: seq<nat>, w: seq<nat>, leaf: nat, p1: seq<nat>, leaf1: nat, x: nat,
        p2: seq<nat>, leaf2: nat, y: nat)
    requires Merging(s, p, w, leaf) && Growing(p, |w| - 1) && |p| < |w|
    requires Taken(s, w, p, leaf, p1, leaf1, x) && Taken(s, w, p1, leaf1, p2, leaf2, y)
    ensures x + y < KEY_RANGE && Merging(s, p2, w + [x + y], leaf2) && Queues(s, w, |p2|, leaf2, y)
  {
    hide Steep;
    var b: nat :| Queues(s, w, |p|, leaf, b) && w[|w| - 1] <= 2 * b && b >= 1;
    QueuesTake(s, w, p, leaf, p1, leaf1, x, b);
    QueuesTake(s, w, p1, leaf1, p2, leaf2, y, x);
    QueuesAppend(s, w, |p2|, leaf2, x, y, b);
    NodeSumAppend(w, x + y, |p2|);
    SteepMerge(s, p, w, p1, x, p2, y, b, leaf, leaf1, leaf2);
  }

  lemma {:induction false} QueuesAppend(s: seq<SymFreq>, w: seq<nat>, root: nat, leaf: nat, x: nat, y: nat, b: nat)
    requires Queues(s, w, root, leaf, y) && b <= x <= y && |w| > 0 && w[|w| - 1] <= 2 * b
    ensures Queues(s, w + [x + y], root, leaf, y)
  {
  }

  // One of the two queues gives up its front, which weighs x and is the lighter one.
  ghost predicate Taken(s: seq<SymFreq>, w: seq<nat>, p: seq<nat>, leaf: nat, p': seq<nat>, leaf': nat, x: nat) {
    && |p| <= |w| && leaf <= |s|
    && if p' == p then leaf < |s| && leaf' == leaf + 1 && x == s[leaf].key && (|p| < |w| ==> x <= w[|p|])
       else p' == p + [|w|] && |p| < |w| && leaf' == leaf && x == w[|p|] && (leaf < |s| ==> x < s[leaf].key)
  }

  lemma {:induction false} QueuesTake(s: seq<SymFreq>, w: seq<nat>, p: seq<nat>, leaf: nat, p': seq<nat>, leaf': nat,
        x: nat, b: nat)
    requires Frequencies(s) && Queues(s, w, |p|, leaf, b) && Taken(s, w, p, leaf, p', leaf', x)
    ensures b <= x && Queues(s, w, |p'|, leaf', x)
    ensures NodeSum(w, |p|) + LeafSum(s, leaf) == x + NodeSum(w, |p'|) + LeafSum(s, leaf')
  {
  }

  lemma {:induction false} SteepMerge(s: seq<SymFreq>, p: seq<nat>, w: seq<nat>, p1: seq<nat>, x: nat, p2: seq<nat>,
        y: nat, b: nat, leaf: nat, leaf1: nat, leaf2: nat)
    requires Steep(p, w) && Queues(s, w, |p|, leaf, b) && 1 <= b <= x <= y
    requires forall j :: 0 <= j < |p| ==> p[j] < |w|
    requires Taken(s, w, p, leaf, p1, leaf1, x) && Taken(s, w, p1, leaf1, p2, leaf2, y)
    ensures Steep(p2, w + [x + y])
  {
    hide Taken, Queues;
    TakenNodes(s, w, p, leaf, p1, leaf1, x, p2, leaf2, y);
    OldNodes(s, w, |p|, leaf, b);
    var v := w + [x + y];
    forall j | 0 <= j < |p2| && p2[j] < |v|
      ensures j < |v| && v[p2[j]] >= v[j] + 1
    {
      if j < |p| {
        assert p2[j] == p[j];
      }
    }
    forall j, k | 0 <= j < |p2| && 0 <= k < |p2| && k < |v| && p2[k] < p2[j] < |v|
      ensures v[p2[j]] >= v[j] + v[k]
    {
      assert k < |p| && p2[k] == p[k];
      if j < |p| {
        assert p2[j] == p[j];
      }
    }
  }

  // The nodes that are merged, if any, weigh x or y, and get the new node as their parent.
  lemma {:induction false} TakenNodes(s: seq<SymFreq>, w: seq<nat>, p: seq<nat>, leaf: nat, p1: seq<nat>, leaf1: nat,
        x: nat, p2: seq<nat>, leaf2: nat, y: nat)
    requires Taken(s, w, p, leaf, p1, leaf1, x) && Taken(s, w, p1, leaf1, p2, leaf2, y)
    ensures |p| <= |p2| <= |w| && p2[..|p|] == p
    ensures forall j :: |p| <= j < |p2| ==> p2[j] == |w| && (w[j] == x || w[j] == y)
  {
  }

  lemma {:induction false} OldNodes(s: seq<SymFreq>, w: seq<nat>, root: nat, leaf: nat, b: nat)
    requires Queues(s, w, root, leaf, b)
    ensures root <= |w| && forall j :: 0 <= j < root ==> w[j] <= b
  {
  }

  ghost function Fib(n: nat): nat {
    if n < 2 then n else Fib(n - 1) + Fib(n - 2)
  }

  // Weights grow along a path to the root at least as the Fibonacci numbers do.
  lemma {:induction false} Climb(p: seq<nat>, w: seq<nat>, k: nat, j: nat, t: nat)
    requires Tree(p) && Steep(p, w) && |w| == |p| + 1 && k < |p| && p[k] == j
    requires w[k] >= Fib(t) && w[j] >= Fib(t + 1)
    ensures w[|p|] >= Fib(t + 1 + Depth(p, j))
    decreases |p| - j
  {
    if j < |p| {
      assert w[p[j]] >= w[j] + w[k];
      Climb(p, w, j, p[j], t + 1);
    }
  }

  lemma {:induction false} FibMonotone(a: nat, b: nat)
    requires a <= b
    ensures Fib(a) <= Fib(b)
    decreases b
  {
    if a < b {
      FibMonotone(a, b - 1);
    }
  }

  // The depth of a tree is paid for by the weight of its root.
  lemma {:induction false} DeepTreesAreHeavy(p: seq<nat>, w: seq<nat>)
    requires Tree(p) && Steep(p, w) && |w| == |p| + 1
    ensures Fib(3 + Depth(p, 0)) <= w[|p|]
  {
    assert Fib(3) == 2 && Fib(4) == 3;
    if |p| > 0 {
      Climb(p, w, 0, p[0], 3);
    }
  }

  // Weights with a 16-bit sum make no internal node deeper than 21.
  lemma {:induction false} ShallowTree(p: seq<nat>, w: seq<nat>)
    requires Tree(p) && Steep(p, w) && |w| == |p| + 1 && w[|p|] < KEY_RANGE
    ensures Depth(p, 0) <= 21
  {
    DeepTreesAreHeavy(p, w);
    if Depth(p, 0) > 21 {
      FibMonotone(25, 3 + Depth(p, 0));
      Fib25();
      assert false;
    }
  }

  lemma {:induction false} Fib25()
    ensures Fib(25) == 75025
  {
    assert Fib(10) == 55 && Fib(11) == 89;
    assert Fib(12) == 144 && Fib(13) == 233;
    assert Fib(14) == 377 && Fib(15) == 610;
    assert Fib(16) == 987 && Fib(17) == 1597;
    assert Fib(18) == 2584 && Fib(19) == 4181;
    assert Fib(20) == 6765 && Fib(21) == 10946;
    assert Fib(22) == 17711 && Fib(23) == 28657;
    assert Fib(24) == 46368;
  }
}
