// Which nodes and leaves each merge of the code length construction takes, and why no code
// for the same weights is cheaper.
module HuffmanForest {
  import opened Bits
  import opened CodeCost
  import opened HuffmanTree

  // ---------- merges ----------

  // Merge k takes the leaves ls[k] .. ls[k + 1] and the nodes Rs(ls, k) .. Rs(ls, k + 1), two
  // in all, and makes node k of them.
  function Rs(ls: seq<nat>, k: nat): int
    requires k < |ls|
  {
    2 * k - ls[k]
  }

  ghost predicate Shape(p: seq<nat>, ls: seq<nat>, n: nat) {
    && |ls| >= 1 && ls[0] == 0
    && (forall k :: 0 <= k < |ls| ==> ls[k] <= n && 0 <= Rs(ls, k) && (k > 0 ==> Rs(ls, k) < k))
    && (forall k, l :: 0 <= k <= l < |ls| ==> ls[k] <= ls[l] && Rs(ls, k) <= Rs(ls, l))
    && Rs(ls, |ls| - 1) == |p|
    && (forall j :: 0 <= j < |p| ==> ParentIs(ls, j, p[j]))
  }

  ghost predicate ParentIs(ls: seq<nat>, j: nat, k: nat) {
    k + 1 < |ls| && Rs(ls, k) <= j < Rs(ls, k + 1)
  }

  // Node k is the parent of leaf i.
  ghost predicate LeafOf(ls: seq<nat>, i: nat, k: nat) {
    k + 1 < |ls| && ls[k] <= i < ls[k + 1]
  }

  ghost function LeafRange(s: seq<SymFreq>, i: nat, j: nat): nat
    requires i <= j <= |s|
    decreases j
  {
    if i == j then 0 else LeafRange(s, i, j - 1) + s[j - 1].key
  }

  ghost function NodeRange(v: seq<Item>, i: nat, j: nat): nat
    requires i <= j <= |v|
    decreases j
  {
    if i == j then 0 else NodeRange(v, i, j - 1) + v[j - 1].weight
  }

  lemma {:induction false} NodeRangePrefix(v: seq<Item>, x: Item, i: nat, j: nat)
    requires i <= j <= |v|
    ensures NodeRange(v + [x], i, j) == NodeRange(v, i, j)
    decreases j
  {
    if i < j {
      NodeRangePrefix(v, x, i, j - 1);
    }
  }

  // The weights of the merges from k on.
  ghost function ToMerge(v: seq<Item>, k: nat): nat
    requires k <= |v|
    decreases |v| - k
  {
    if k == |v| then 0 else v[k].weight + ToMerge(v, k + 1)
  }

  // A leaf as an item.
  function Leaf(e: SymFreq): Item {
    Item(e.key, 0)
  }

  function Leaves(s: seq<SymFreq>): (v: seq<Item>)
    ensures |v| == |s| && forall i :: 0 <= i < |v| ==> v[i] == Leaf(s[i])
  {
    seq(|s|, i requires 0 <= i < |s| => Leaf(s[i]))
  }

  // Merge k takes two items, nodes that were made before it and leaves.
  ghost predicate Ranges(s: seq<SymFreq>, v: seq<Item>, ls: seq<nat>, k: nat) {
    && k + 1 < |ls| && k < |v|
    && 0 <= Rs(ls, k) <= Rs(ls, k + 1) <= k && ls[k] <= ls[k + 1] <= |s|
  }

  // All nodes before root and leaves before leaf come up to b, all others from b on.
  ghost predicate Split(s: seq<SymFreq>, v: seq<Item>, root: nat, leaf: nat, b: Item) {
    && root <= |v| && leaf <= |s|
    && (forall j :: 0 <= j < root ==> NotAfter(v[j], b))
    && (forall j :: root <= j < |v| ==> NotAfter(b, v[j]))
    && (forall i :: 0 <= i < leaf ==> NotAfter(Leaf(s[i]), b))
    && (forall i :: leaf <= i < |s| ==> NotAfter(b, Leaf(s[i])))
  }

  // What merge k takes.
  ghost function TakenBy(s: seq<SymFreq>, v: seq<Item>, ls: seq<nat>, k: nat): multiset<Item>
    requires Ranges(s, v, ls, k)
  {
    multiset(Leaves(s)[ls[k]..ls[k + 1]]) + multiset(v[Rs(ls, k)..Rs(ls, k + 1)])
  }

  // It takes x and y, with which all the items that were there before it divide.
  ghost predicate Joined(s: seq<SymFreq>, v: seq<Item>, ls: seq<nat>, k: nat, x: Item, y: Item)
    requires Ranges(s, v, ls, k)
  {
    && v[k] == Join(x, y) && NotAfter(x, y)
    && TakenBy(s, v, ls, k) == multiset{x} + multiset{y}
    && Split(s, v[..k], Rs(ls, k + 1), ls[k + 1], y)
  }

  ghost predicate Merged(s: seq<SymFreq>, v: seq<Item>, ls: seq<nat>, k: nat) {
    && Ranges(s, v, ls, k)
    && v[k].weight == LeafRange(s, ls[k], ls[k + 1]) + NodeRange(v, Rs(ls, k), Rs(ls, k + 1))
    && exists x: Item, y: Item :: Joined(s, v, ls, k, x, y)
  }

  ghost predicate InOrder(v: seq<Item>) {
    forall i, j :: 0 <= i < j < |v| ==> NotAfter(v[i], v[j])
  }

  // Every merge took the first two of what was left, by weight and then by height.
  ghost predicate History(s: seq<SymFreq>, v: seq<Item>, ls: seq<nat>) {
    && |ls| == |v| + 1 && InOrder(v)
    && forall k :: 0 <= k < |v| ==> Merged(s, v, ls, k)
  }

  ghost predicate Weighed(w: seq<nat>, v: seq<Item>) {
    |v| == |w| && forall k :: 0 <= k < |v| ==> v[k].weight == w[k]
  }

  // ---------- the merges of the first phase ----------

  lemma {:induction false} ShapeStart(n: nat)
    requires n >= 2
    ensures Shape([], [0, 2], n)
  {
    assert [0, 2][0] == 0 && [0, 2][1] == 2;
  }

  lemma {:induction false} HistoryStart(s: seq<SymFreq>)
    requires |s| >= 2 && Frequencies(s)
    ensures History(s, [Join(Leaf(s[0]), Leaf(s[1]))], [0, 2])
  {
    hide LeafRange, NodeRange, Leaves, Split, Frequencies;
    var v, ls := [Join(Leaf(s[0]), Leaf(s[1]))], [0, 2];
    assert ls[0] == 0 && ls[1] == 2 && Rs(ls, 0) == 0 && Rs(ls, 1) == 0;
    TwoLeaves(s, 0);
    FirstSplit(s);
    assert v[0..0] == [] && v[..0] == [] && NodeRange(v, 0, 0) == 0 by { NodeNone(v); }
    assert Ranges(s, v, ls, 0);
    assert Joined(s, v, ls, 0, Leaf(s[0]), Leaf(s[1]));
    assert Merged(s, v, ls, 0);
  }

  lemma {:induction false} NodeNone(v: seq<Item>)
    ensures NodeRange(v, 0, 0) == 0
  {
  }

  lemma {:induction false} FirstSplit(s: seq<SymFreq>)
    requires |s| >= 2 && Frequencies(s)
    ensures NotAfter(Leaf(s[0]), Leaf(s[1])) && Split(s, [], 0, 2, Leaf(s[1]))
  {
    hide LeafSum;
    assert s[0].key <= s[1].key;
    forall i | 2 <= i < |s|
      ensures s[1].key <= s[i].key
    {
    }
  }

  // Two items are taken: nodes get the new node as their parent.
  lemma {:induction false} ShapeStep(p: seq<nat>, ls: seq<nat>, n: nat, p': seq<nat>, leaf: nat)
    requires Shape(p, ls, n) && |ls| >= 2 && |p'| < |ls| && p <= p' && leaf <= n
    requires (forall j :: |p| <= j < |p'| ==> p'[j] == |ls| - 1) && |p'| - |p| + leaf - ls[|ls| - 1] == 2
    requires leaf >= ls[|ls| - 1]
    ensures Shape(p', ls + [leaf], n)
  {
    var ls' := ls + [leaf];
    var m := |ls| - 1;
    assert forall k :: 0 <= k < |ls| ==> ls'[k] == ls[k] && Rs(ls', k) == Rs(ls, k);
    assert Rs(ls', |ls|) == |p'|;
    forall j | 0 <= j < |p'|
      ensures ParentIs(ls', j, p'[j])
    {
      if j < |p| {
        assert p'[j] == p[j] && ParentIs(ls, j, p[j]);
      }
    }
  }

  lemma {:induction false} MergedKept(s: seq<SymFreq>, v: seq<Item>, ls: seq<nat>, x: Item, leaf: nat, k: nat)
    requires Merged(s, v, ls, k)
    ensures Merged(s, v + [x], ls + [leaf], k)
  {
    hide Split, LeafRange, NodeRange, Leaves;
    var v', ls' := v + [x], ls + [leaf];
    assert Rs(ls', k) == Rs(ls, k) && Rs(ls', k + 1) == Rs(ls, k + 1);
    NodeRangePrefix(v, x, Rs(ls, k), Rs(ls, k + 1));
    var a: Item, b: Item :| Joined(s, v, ls, k, a, b);
    assert Ranges(s, v', ls', k);
    assert v'[..k] == v[..k] && v'[Rs(ls, k)..Rs(ls, k + 1)] == v[Rs(ls, k)..Rs(ls, k + 1)];
    assert Joined(s, v', ls', k, a, b);
  }

  lemma {:induction false} HistoryStep(s: seq<SymFreq>, v: seq<Item>, ls: seq<nat>, x: Item, leaf: nat)
    requires History(s, v, ls) && Merged(s, v + [x], ls + [leaf], |v|) && (v != [] ==> NotAfter(v[|v| - 1], x))
    ensures History(s, v + [x], ls + [leaf])
  {
    hide Merged;
    forall k | 0 <= k <= |v|
      ensures Merged(s, v + [x], ls + [leaf], k)
    {
      if k < |v| {
        MergedKept(s, v, ls, x, leaf, k);
      }
    }
    forall i | 0 <= i < |v|
      ensures NotAfter(v[i], x)
    {
      assert i < |v| - 1 ==> NotAfter(v[i], v[|v| - 1]);
    }
  }

  // The item at the front of a queue.
  function Front(s: seq<SymFreq>, v: seq<Item>, p: seq<nat>, leaf: nat, p': seq<nat>): Item
    requires if |p'| == |p| then leaf < |s| else |p| < |v|
  {
    if |p'| == |p| then Leaf(s[leaf]) else v[|p|]
  }

  // It comes before all that is left, since a leaf is taken before a node as heavy.
  lemma {:induction false} FrontIsFirst(s: seq<SymFreq>, w: seq<nat>, v: seq<Item>, p: seq<nat>, leaf: nat,
        p': seq<nat>, leaf': nat, x: nat, b: Item)
    requires Frequencies(s) && Weighed(w, v) && InOrder(v) && Split(s, v, |p|, leaf, b)
    requires Taken(s, w, p, leaf, p', leaf', x)
    ensures var f := Front(s, v, p, leaf, p'); f.weight == x && NotAfter(b, f) && Split(s, v, |p'|, leaf', f)
  {
    hide LeafSum;
    var f := Front(s, v, p, leaf, p');
    forall j | |p'| <= j < |v|
      ensures NotAfter(f, v[j])
    {
      if |p'| == |p| && j > |p| {
        assert NotAfter(v[|p|], v[j]);
      }
    }
    forall i | leaf' <= i < |s|
      ensures NotAfter(f, Leaf(s[i]))
    {
      assert i > leaf ==> s[leaf].key <= s[i].key;
    }
  }

  // The newest merge left all before its second item.
  lemma {:induction false} NewestSplit(s: seq<SymFreq>, v: seq<Item>, ls: seq<nat>) returns (x: Item, y: Item)
    requires History(s, v, ls) && |v| >= 1
    ensures |ls| == |v| + 1 && ls[|v|] <= |s| && 0 <= Rs(ls, |v|) <= |v|
    ensures v[|v| - 1] == Join(x, y) && NotAfter(x, y) && Split(s, v, Rs(ls, |v|), ls[|v|], y)
  {
    hide LeafRange, NodeRange, TakenBy, Split, InOrder;
    var k := |v| - 1;
    assert Merged(s, v, ls, k);
    x, y :| Joined(s, v, ls, k, x, y);
    assert v == v[..k] + [v[k]];
    SplitAppend(s, v[..k], Rs(ls, |v|), ls[|v|], y, v[k]);
  }

  lemma {:induction false} SplitAppend(s: seq<SymFreq>, v: seq<Item>, root: nat, leaf: nat, b: Item, x: Item)
    requires Split(s, v, root, leaf, b) && NotAfter(b, x)
    ensures Split(s, v + [x], root, leaf, b)
  {
  }

  // The items a and b are those of the leaves and nodes in these ranges.
  ghost predicate Both(s: seq<SymFreq>, v: seq<Item>, leaf: nat, leaf': nat, root: nat, root': nat, a: Item, b: Item) {
    && leaf <= leaf' <= |s| && root <= root' <= |v| && leaf' - leaf + root' - root == 2
    && a.weight + b.weight == LeafRange(s, leaf, leaf') + NodeRange(v, root, root')
    && multiset(Leaves(s)[leaf..leaf']) + multiset(v[root..root']) == multiset{a} + multiset{b}
  }

  // The newest merge took two items.
  lemma {:induction false} NewestMerged(s: seq<SymFreq>, v: seq<Item>, ls: seq<nat>, root: nat, leaf: nat, a: Item,
        b: Item)
    requires |ls| == |v| + 1 && 0 <= Rs(ls, |v|) <= root && Rs(ls + [leaf], |v| + 1) == root
    requires Both(s, v, ls[|v|], leaf, Rs(ls, |v|), root, a, b) && NotAfter(a, b) && Split(s, v, root, leaf, b)
    ensures Merged(s, v + [Join(a, b)], ls + [leaf], |v|)
  {
    hide LeafRange, NodeRange, Split, Leaves;
    var v', ls', k := v + [Join(a, b)], ls + [leaf], |v|;
    assert ls'[k] == ls[k] && ls'[k + 1] == leaf && Rs(ls', k) == Rs(ls, k);
    NodeRangePrefix(v, v'[k], Rs(ls, k), root);
    assert Ranges(s, v', ls', k);
    assert v'[..k] == v && v'[Rs(ls, k)..root] == v[Rs(ls, k)..root];
    assert Joined(s, v', ls', k, a, b);
  }

  lemma {:induction false} BothTaken(s: seq<SymFreq>, w: seq<nat>, v: seq<Item>, p: seq<nat>, leaf: nat, p1: seq<nat>,
        leaf1: nat, x: nat, p2: seq<nat>, leaf2: nat, y: nat)
    requires Weighed(w, v) && Taken(s, w, p, leaf, p1, leaf1, x) && Taken(s, w, p1, leaf1, p2, leaf2, y)
    requires if |p1| == |p| then leaf < |s| else |p| < |v|
    requires if |p2| == |p1| then leaf1 < |s| else |p1| < |v|
    ensures Both(s, v, leaf, leaf2, |p|, |p2|, Front(s, v, p, leaf, p1), Front(s, v, p1, leaf1, p2))
    ensures Front(s, v, p, leaf, p1).weight == x && Front(s, v, p1, leaf1, p2).weight == y
  {
    hide LeafRange, NodeRange, Leaves, Front, Taken;
    TakenOne(s, w, v, p, leaf, p1, leaf1, x);
    TakenOne(s, w, v, p1, leaf1, p2, leaf2, y);
    RangesJoin(s, v, leaf, leaf1, leaf2, |p|, |p1|, |p2|);
    SlicesJoin(Leaves(s), leaf, leaf1, leaf2, v, |p|, |p1|, |p2|);
  }

  lemma {:induction false} TakenOne(s: seq<SymFreq>, w: seq<nat>, v: seq<Item>, p: seq<nat>, leaf: nat, p': seq<nat>,
        leaf': nat, x: nat)
    requires Weighed(w, v) && Taken(s, w, p, leaf, p', leaf', x) && if |p'| == |p| then leaf < |s| else |p| < |v|
    ensures leaf <= leaf' <= |s| && |p| <= |p'| <= |w| && leaf' - leaf + |p'| - |p| == 1
    ensures LeafRange(s, leaf, leaf') + NodeRange(v, |p|, |p'|) == x == Front(s, v, p, leaf, p').weight
    ensures multiset(Leaves(s)[leaf..leaf']) + multiset(v[|p|..|p'|]) == multiset{Front(s, v, p, leaf, p')}
  {
    assert LeafRange(s, leaf, leaf) == 0 && NodeRange(v, |p|, |p|) == 0;
    if |p'| == |p| {
      assert Leaves(s)[leaf..leaf'] == [Leaf(s[leaf])] && v[|p|..|p'|] == [];
    } else {
      assert Leaves(s)[leaf..leaf'] == [] && v[|p|..|p'|] == [v[|p|]];
    }
  }

  lemma {:induction false} SlicesJoin(a: seq<Item>, i: nat, j: nat, k: nat, b: seq<Item>, l: nat, m: nat, n: nat)
    requires i <= j <= k <= |a| && l <= m <= n <= |b|
    ensures multiset(a[i..k]) + multiset(b[l..n]) ==
      (multiset(a[i..j]) + multiset(b[l..m])) + (multiset(a[j..k]) + multiset(b[m..n]))
  {
    SplitSlice(a, i, j, k);
    SplitSlice(b, l, m, n);
  }

  lemma {:induction false} SplitSlice(a: seq<Item>, i: nat, j: nat, k: nat)
    requires i <= j <= k <= |a|
    ensures multiset(a[i..k]) == multiset(a[i..j]) + multiset(a[j..k])
  {
    assert a[i..k] == a[i..j] + a[j..k];
  }

  lemma {:induction false} TwoLeaves(s: seq<SymFreq>, l: nat)
    requires l + 2 <= |s|
    ensures multiset(Leaves(s)[l..l + 2]) == multiset{Leaf(s[l])} + multiset{Leaf(s[l + 1])}
    ensures LeafRange(s, l, l + 2) == s[l].key + s[l + 1].key
  {
    assert Leaves(s)[l..l + 2] == [Leaf(s[l]), Leaf(s[l + 1])];
    assert LeafRange(s, l, l) == 0 && LeafRange(s, l, l + 1) == s[l].key;
  }

  lemma {:induction false} RangesJoin(s: seq<SymFreq>, v: seq<Item>, a: nat, b: nat, c: nat, i: nat, j: nat, k: nat)
    requires a <= b <= c <= |s| && i <= j <= k <= |v|
    ensures LeafRange(s, a, c) == LeafRange(s, a, b) + LeafRange(s, b, c)
    ensures NodeRange(v, i, k) == NodeRange(v, i, j) + NodeRange(v, j, k)
  {
    LeafJoin(s, a, b, c);
    NodeJoin(v, i, j, k);
  }

  lemma {:induction false} LeafJoin(s: seq<SymFreq>, a: nat, b: nat, c: nat)
    requires a <= b <= c <= |s|
    ensures LeafRange(s, a, c) == LeafRange(s, a, b) + LeafRange(s, b, c)
    decreases c
  {
    if b < c {
      LeafJoin(s, a, b, c - 1);
    }
  }

  lemma {:induction false} NodeJoin(v: seq<Item>, a: nat, b: nat, c: nat)
    requires a <= b <= c <= |v|
    ensures NodeRange(v, a, c) == NodeRange(v, a, b) + NodeRange(v, b, c)
    decreases c
  {
    if b < c {
      NodeJoin(v, a, b, c - 1);
    }
  }

  // The history of the merges after one more.
  lemma {:induction false} OneMoreMerge(s: seq<SymFreq>, w: seq<nat>, v: seq<Item>, ls: seq<nat>, p: seq<nat>,
        p1: seq<nat>, leaf1: nat, x: nat, p2: seq<nat>, leaf2: nat, y: nat)
    requires Frequencies(s) && History(s, v, ls) && Weighed(w, v) && Shape(p, ls, |s|) && |w| >= 1
    requires Taken(s, w, p, ls[|w|], p1, leaf1, x) && Taken(s, w, p1, leaf1, p2, leaf2, y) && |p2| <= |w|
    ensures var j := Join(Front(s, v, p, ls[|w|], p1), Front(s, v, p1, leaf1, p2));
      j.weight == x + y && History(s, v + [j], ls + [leaf2])
  {
    hide Merged, Split, Frequencies, Taken, Front, Both;
    assert InOrder(v) && Rs(ls, |w|) == |p|;
    FrontsExist(s, w, p, ls[|w|], p1, leaf1, x, p2, leaf2, y);
    var a, b := Front(s, v, p, ls[|w|], p1), Front(s, v, p1, leaf1, p2);
    var c, d := NewestSplit(s, v, ls);
    FrontIsFirst(s, w, v, p, ls[|w|], p1, leaf1, x, d);
    FrontIsFirst(s, w, v, p1, leaf1, p2, leaf2, y, a);
    BothTaken(s, w, v, p, ls[|w|], p1, leaf1, x, p2, leaf2, y);
    BothCount(s, v, ls[|w|], leaf2, |p|, |p2|, a, b);
    assert Rs(ls + [leaf2], |w| + 1) == |p2|;
    NewestMerged(s, v, ls, |p2|, leaf2, a, b);
    JoinInOrder(c, d, a, b);
    HistoryStep(s, v, ls, Join(a, b), leaf2);
  }

  lemma {:induction false} BothCount(s: seq<SymFreq>, v: seq<Item>, leaf: nat, leaf': nat, root: nat, root': nat,
        a: Item, b: Item)
    requires Both(s, v, leaf, leaf', root, root', a, b)
    ensures leaf' - leaf + root' - root == 2 && leaf <= leaf' && root <= root'
  {
  }

  lemma {:induction false} FrontsExist(s: seq<SymFreq>, w: seq<nat>, p: seq<nat>, leaf: nat, p1: seq<nat>, leaf1: nat,
        x: nat, p2: seq<nat>, leaf2: nat, y: nat)
    requires Taken(s, w, p, leaf, p1, leaf1, x) && Taken(s, w, p1, leaf1, p2, leaf2, y)
    ensures if |p1| == |p| then leaf < |s| else |p| < |w|
    ensures if |p2| == |p1| then leaf1 < |s| else |p1| < |w|
  {
  }

  // ---------- no code is cheaper ----------

  function Keys(s: seq<SymFreq>): (keys: seq<nat>)
    ensures |keys| == |s| && forall i :: 0 <= i < |s| ==> keys[i] == s[i].key
  {
    seq(|s|, i requires 0 <= i < |s| => s[i].key)
  }

  // What is left before merge k.
  ghost function Remaining(s: seq<SymFreq>, v: seq<Item>, ls: seq<nat>, k: nat): multiset<Item>
    requires k < |ls| && 0 <= Rs(ls, k) <= k <= |v| && ls[k] <= |s|
  {
    multiset(v[Rs(ls, k)..k]) + multiset(Leaves(s)[ls[k]..])
  }

  // What merge k leaves of what was there before it.
  ghost function Rest(s: seq<SymFreq>, v: seq<Item>, ls: seq<nat>, k: nat): multiset<Item>
    requires Ranges(s, v, ls, k)
  {
    multiset(v[Rs(ls, k + 1)..k]) + multiset(Leaves(s)[ls[k + 1]..])
  }

  ghost predicate TwoTaken(s: seq<SymFreq>, v: seq<Item>, ls: seq<nat>, k: nat, x: Item, y: Item)
    requires Ranges(s, v, ls, k)
  {
    && Join(x, y) == v[k] && NotAfter(x, y) && (forall z :: z in Rest(s, v, ls, k) ==> NotAfter(y, z))
    && Remaining(s, v, ls, k) == Rest(s, v, ls, k) + multiset{x} + multiset{y}
  }

  // The two items of a merge come before the rest.
  lemma {:induction false} ItemsOfMerge(s: seq<SymFreq>, v: seq<Item>, ls: seq<nat>, k: nat) returns (x: Item, y: Item)
    requires Merged(s, v, ls, k)
    ensures TwoTaken(s, v, ls, k, x, y)
  {
    hide Remaining, Rest, Split, LeafRange, NodeRange;
    x, y :| Joined(s, v, ls, k, x, y);
    RemainingIs(s, v, ls, k);
    RestAtLeast(s, v, ls, k, y);
    assert Rest(s, v, ls, k) + TakenBy(s, v, ls, k) == Rest(s, v, ls, k) + multiset{x} + multiset{y};
  }

  lemma {:induction false} RemainingIs(s: seq<SymFreq>, v: seq<Item>, ls: seq<nat>, k: nat)
    requires Ranges(s, v, ls, k)
    ensures Remaining(s, v, ls, k) == Rest(s, v, ls, k) + TakenBy(s, v, ls, k)
  {
    var all := Leaves(s);
    SplitSlice(v, Rs(ls, k), Rs(ls, k + 1), k);
    SplitSlice(all, ls[k], ls[k + 1], |s|);
    assert all[ls[k]..] == all[ls[k]..|s|] && all[ls[k + 1]..] == all[ls[k + 1]..|s|];
  }

  lemma {:induction false} RestAtLeast(s: seq<SymFreq>, v: seq<Item>, ls: seq<nat>, k: nat, b: Item)
    requires Ranges(s, v, ls, k) && Split(s, v[..k], Rs(ls, k + 1), ls[k + 1], b)
    ensures forall z :: z in Rest(s, v, ls, k) ==> NotAfter(b, z)
  {
    forall z | z in Rest(s, v, ls, k)
      ensures NotAfter(b, z)
    {
      if z in v[Rs(ls, k + 1)..k] {
        var j :| 0 <= j < k - Rs(ls, k + 1) && v[Rs(ls, k + 1)..k][j] == z;
        assert v[..k][Rs(ls, k + 1) + j] == z;
      } else {
        assert z in Leaves(s)[ls[k + 1]..];
        var i :| 0 <= i < |s| - ls[k + 1] && Leaves(s)[ls[k + 1]..][i] == z;
        assert Leaf(s[ls[k + 1] + i]) == z;
      }
    }
  }

  // Any code for what is left before merge k costs at least what is still to be merged, and
  // is as deep as the root is high if it costs no more.
  lemma {:induction false} LowerBound(s: seq<SymFreq>, v: seq<Item>, ls: seq<nat>, k: nat)
    requires History(s, v, ls) && k <= |v| && |v| >= 1 && 0 <= Rs(ls, k) <= k && ls[k] <= |s| && Rs(ls, |v|) < |v|
    ensures AtLeast(Remaining(s, v, ls, k), ToMerge(v, k), v[|v| - 1].height)
    decreases |v| - k
  {
    hide Merged, Rest, AtLeast, TwoTaken, Remaining;
    if k == |v| {
      RootRemains(s, v, ls);
      HighItem(Remaining(s, v, ls, k), v[|v| - 1]);
    } else {
      MergedRanges(s, v, ls, k);
      LowerBound(s, v, ls, k + 1);
      var x, y := ItemsOfMerge(s, v, ls, k);
      NextRemaining(s, v, ls, k);
      BoundStep(s, v, ls, k, x, y);
    }
  }

  lemma {:induction false} RootRemains(s: seq<SymFreq>, v: seq<Item>, ls: seq<nat>)
    requires |ls| == |v| + 1 && |v| >= 1 && 0 <= Rs(ls, |v|) < |v| && ls[|v|] <= |s|
    ensures v[|v| - 1] in Remaining(s, v, ls, |v|)
  {
    assert v[Rs(ls, |v|)..|v|][|v| - 1 - Rs(ls, |v|)] == v[|v| - 1];
  }

  lemma {:induction false} MergedRanges(s: seq<SymFreq>, v: seq<Item>, ls: seq<nat>, k: nat)
    requires Merged(s, v, ls, k)
    ensures Ranges(s, v, ls, k)
  {
  }

  lemma {:induction false} NextRemaining(s: seq<SymFreq>, v: seq<Item>, ls: seq<nat>, k: nat)
    requires Ranges(s, v, ls, k)
    ensures Remaining(s, v, ls, k + 1) == Rest(s, v, ls, k) + multiset{v[k]}
  {
    SplitSlice(v, Rs(ls, k + 1), k, k + 1);
    assert v[k..k + 1] == [v[k]];
  }

  lemma {:induction false} BoundStep(s: seq<SymFreq>, v: seq<Item>, ls: seq<nat>, k: nat, x: Item, y: Item)
    requires Ranges(s, v, ls, k) && TwoTaken(s, v, ls, k, x, y)
    requires AtLeast(Remaining(s, v, ls, k + 1), ToMerge(v, k + 1), v[|v| - 1].height)
    requires Remaining(s, v, ls, k + 1) == Rest(s, v, ls, k) + multiset{v[k]}
    ensures AtLeast(Remaining(s, v, ls, k), ToMerge(v, k), v[|v| - 1].height)
  {
    hide AtLeast, Rest, Remaining;
    MergeBound(Rest(s, v, ls, k), x, y, ToMerge(v, k + 1), v[|v| - 1].height);
    assert ToMerge(v, k) == v[k].weight + ToMerge(v, k + 1);
  }

  // ---------- the root is as high as the tree is deep ----------

  // A node is higher than one that it was made of.
  lemma {:induction false} ParentIsHigher(s: seq<SymFreq>, v: seq<Item>, ls: seq<nat>, p: seq<nat>, j: nat)
    requires History(s, v, ls) && Shape(p, ls, |s|) && |v| == |p| + 1 && j < |p|
    ensures p[j] <= |p| && v[p[j]].height >= v[j].height + 1
  {
    hide LeafRange, NodeRange, Split, InOrder;
    assert ParentIs(ls, j, p[j]);
    var k := p[j];
    assert Merged(s, v, ls, k);
    var x: Item, y: Item :| Joined(s, v, ls, k, x, y);
    assert v[Rs(ls, k)..Rs(ls, k + 1)][j - Rs(ls, k)] == v[j];
    assert v[j] in TakenBy(s, v, ls, k);
  }

  lemma {:induction false} RootIsHigh(s: seq<SymFreq>, v: seq<Item>, ls: seq<nat>, p: seq<nat>, j: nat)
    requires Tree(p) && History(s, v, ls) && Shape(p, ls, |s|) && |v| == |p| + 1 && j <= |p|
    ensures v[|p|].height >= v[j].height + Depth(p, j)
    decreases |p| - j
  {
    hide History, Shape;
    if j < |p| {
      ParentIsHigher(s, v, ls, p, j);
      RootIsHigh(s, v, ls, p, p[j]);
    }
  }

  lemma {:induction false} FirstIsHigh(s: seq<SymFreq>, v: seq<Item>, ls: seq<nat>)
    requires History(s, v, ls) && |v| >= 1
    ensures v[0].height >= 1
  {
    assert Merged(s, v, ls, 0);
    var x: Item, y: Item :| Joined(s, v, ls, 0, x, y);
  }

  // ---------- what the lengths of the tree cost ----------

  // The lengths that leaves have in the tree.
  ghost predicate LeafDepths(p: seq<nat>, ls: seq<nat>, t: seq<SymFreq>)
    requires Tree(p)
  {
    forall i, k :: 0 <= i < |t| && 0 <= k <= |p| && LeafOf(ls, i, k) ==> t[i].key == Depth(p, k) + 1
  }

  // The cost of the first i leaves, and of the first j nodes if they were symbols.
  ghost function LeafCost(s: seq<SymFreq>, t: seq<SymFreq>, i: nat): nat
    requires |s| == |t| && i <= |s|
  {
    if i == 0 then 0 else LeafCost(s, t, i - 1) + s[i - 1].key * t[i - 1].key
  }

  ghost function NodeCost(v: seq<Item>, p: seq<nat>, j: nat): nat
    requires Tree(p) && |v| == |p| + 1 && j <= |v|
  {
    if j == 0 then 0 else NodeCost(v, p, j - 1) + v[j - 1].weight * Depth(p, j - 1)
  }

  lemma {:induction false} LeafCostRange(s: seq<SymFreq>, t: seq<SymFreq>, a: nat, b: nat, d: nat)
    requires |s| == |t| && a <= b <= |s| && forall i :: a <= i < b ==> t[i].key == d
    ensures LeafCost(s, t, b) == LeafCost(s, t, a) + LeafRange(s, a, b) * d
    decreases b
  {
    if a < b {
      LeafCostRange(s, t, a, b - 1, d);
      Together(s[b - 1].key, LeafRange(s, a, b - 1), d);
    }
  }

  lemma {:induction false} NodeCostRange(v: seq<Item>, p: seq<nat>, a: nat, b: nat, d: nat)
    requires Tree(p) && |v| == |p| + 1 && a <= b <= |v| && forall j: nat :: a <= j < b ==> Depth(p, j) == d
    ensures NodeCost(v, p, b) == NodeCost(v, p, a) + NodeRange(v, a, b) * d
    decreases b
  {
    hide Depth;
    if a < b {
      NodeCostRange(v, p, a, b - 1, d);
      Together(v[b - 1].weight, NodeRange(v, a, b - 1), d);
    }
  }

  // The nodes that merge k takes have node k as their parent.
  lemma {:induction false} TakenNodesDepth(p: seq<nat>, ls: seq<nat>, n: nat, k: nat, j: nat)
    requires Tree(p) && Shape(p, ls, n) && k + 1 < |ls| && k <= |p| && Rs(ls, k) <= j < Rs(ls, k + 1)
    ensures j < |p| && p[j] == k && Depth(p, j) == Depth(p, k) + 1
  {
    assert Rs(ls, k + 1) <= Rs(ls, |ls| - 1);
    assert ParentIs(ls, j, p[j]);
  }

  // What was merged so far weighs as much as the lengths below it cost.
  lemma {:induction false} CostOfMerges(s: seq<SymFreq>, v: seq<Item>, ls: seq<nat>, p: seq<nat>, t: seq<SymFreq>,
        k: nat)
    requires Tree(p) && Shape(p, ls, |s|) && History(s, v, ls) && |v| == |p| + 1 && |t| == |s| && LeafDepths(p, ls, t)
    requires k <= |v|
    ensures ls[k] <= |s| && 0 <= Rs(ls, k) <= k
    ensures NodeCost(v, p, k) + NodeRange(v, 0, k) == LeafCost(s, t, ls[k]) + NodeCost(v, p, Rs(ls, k))
    decreases k
  {
    hide Depth, Tree, Shape, LeafDepths, LeafCost, NodeCost, LeafRange, NodeRange, Split;
    ShapeAt(p, ls, |s|, k);
    if k == 0 {
      NothingYet(s, t, v, p);
    } else {
      var m := k - 1;
      CostOfMerges(s, v, ls, p, t, m);
      assert Merged(s, v, ls, m);
      CostOfMerge(s, v, ls, p, t, m);
      NodeNext(v, p, m);
      var d := Depth(p, m);
      Together(LeafRange(s, ls[m], ls[k]), NodeRange(v, Rs(ls, m), Rs(ls, k)), d + 1);
      Together(v[m].weight, 0, d + 1);
      OneMore(v[m].weight, d);
    }
  }

  lemma {:induction false} OneMore(x: nat, d: nat)
    ensures x * (d + 1) == x * d + x
  {
  }

  lemma {:induction false} ShapeAt(p: seq<nat>, ls: seq<nat>, n: nat, k: nat)
    requires Shape(p, ls, n) && k < |ls|
    ensures ls[k] <= n && 0 <= Rs(ls, k) <= k && ls[0] == 0
  {
  }

  lemma {:induction false} NothingYet(s: seq<SymFreq>, t: seq<SymFreq>, v: seq<Item>, p: seq<nat>)
    requires |s| == |t| && Tree(p) && |v| == |p| + 1
    ensures LeafCost(s, t, 0) == 0 && NodeCost(v, p, 0) == 0 && NodeRange(v, 0, 0) == 0
  {
  }

  lemma {:induction false} NodeNext(v: seq<Item>, p: seq<nat>, m: nat)
    requires Tree(p) && |v| == |p| + 1 && m < |v|
    ensures NodeCost(v, p, m + 1) == NodeCost(v, p, m) + v[m].weight * Depth(p, m)
    ensures NodeRange(v, 0, m + 1) == NodeRange(v, 0, m) + v[m].weight
  {
    hide Depth;
  }

  // The items of merge m are one deeper than its node.
  lemma {:induction false} CostOfMerge(s: seq<SymFreq>, v: seq<Item>, ls: seq<nat>, p: seq<nat>, t: seq<SymFreq>,
        m: nat)
    requires Tree(p) && Shape(p, ls, |s|) && Ranges(s, v, ls, m) && |v| == |p| + 1 && |t| == |s| && LeafDepths(p, ls, t)
    ensures var d := Depth(p, m) + 1;
      && LeafCost(s, t, ls[m + 1]) == LeafCost(s, t, ls[m]) + LeafRange(s, ls[m], ls[m + 1]) * d
      && NodeCost(v, p, Rs(ls, m + 1)) == NodeCost(v, p, Rs(ls, m)) + NodeRange(v, Rs(ls, m), Rs(ls, m + 1)) * d
  {
    hide Depth, Tree, Shape, LeafCost, NodeCost, LeafRange, NodeRange;
    var d := Depth(p, m) + 1;
    forall i | ls[m] <= i < ls[m + 1]
      ensures t[i].key == d
    {
      assert LeafOf(ls, i, m);
    }
    LeafCostRange(s, t, ls[m], ls[m + 1], d);
    forall j: nat | Rs(ls, m) <= j < Rs(ls, m + 1)
      ensures Depth(p, j) == d
    {
      TakenNodesDepth(p, ls, |s|, m, j);
    }
    NodeCostRange(v, p, Rs(ls, m), Rs(ls, m + 1), d);
  }

  lemma {:induction false} SumIsRange(v: seq<Item>, k: nat)
    requires k <= |v|
    ensures ToMerge(v, 0) == NodeRange(v, 0, k) + ToMerge(v, k)
    decreases k
  {
    if k > 0 {
      SumIsRange(v, k - 1);
    }
  }

  lemma {:induction false} CostIsLeafCost(s: seq<SymFreq>, t: seq<SymFreq>, i: nat)
    requires |s| == |t| && i <= |s|
    ensures Cost(Coded(Keys(s)[i..], Keys(t)[i..])) + LeafCost(s, t, i) == LeafCost(s, t, |s|)
    decreases |s| - i
  {
    if i < |s| {
      CostIsLeafCost(s, t, i + 1);
      assert Coded(Keys(s)[i..], Keys(t)[i..])[1..] == Coded(Keys(s)[i + 1..], Keys(t)[i + 1..]);
    }
  }

  lemma {:induction false} TreeCost(s: seq<SymFreq>, v: seq<Item>, ls: seq<nat>, p: seq<nat>, t: seq<SymFreq>)
    requires Tree(p) && Shape(p, ls, |s|) && History(s, v, ls) && |v| == |p| + 1 && |s| == |p| + 2
    requires |t| == |s| && LeafDepths(p, ls, t)
    ensures Cost(Coded(Keys(s), Keys(t))) == ToMerge(v, 0)
  {
    hide LeafDepths, Merged, Cost, Tree, Coded;
    var k := |v|;
    CostOfMerges(s, v, ls, p, t, k);
    NodeNext(v, p, k - 1);
    assert Depth(p, |p|) == 0;
    SumIsRange(v, k);
    CostIsLeafCost(s, t, 0);
    NothingYet(s, t, v, p);
    assert Keys(s)[0..] == Keys(s) && Keys(t)[0..] == Keys(t);
    assert ls[k] == |s| && Rs(ls, k) == |p| by {
      assert Rs(ls, |ls| - 1) == |p|;
    }
  }

  // No lengths are cheaper than those of the finished tree, and none as cheap do without one
  // as long as its longest.
  lemma {:induction false} TreeIsMinimum(s: seq<SymFreq>, v: seq<Item>, ls: seq<nat>, p: seq<nat>, t: seq<SymFreq>)
    requires Tree(p) && Shape(p, ls, |s|) && History(s, v, ls) && |v| == |p| + 1 && |s| == |p| + 2
    requires |t| == |s| && LeafDepths(p, ls, t)
    ensures Minimum(Keys(s), Keys(t)) && Reaches(Keys(s), Keys(t), Depth(p, 0) + 1)
  {
    hide Minimum, AtLeast, LeafDepths, Merged, Cost, Tree, ToMerge, Depth;
    TreeCost(s, v, ls, p, t);
    ShapeAt(p, ls, |s|, 0);
    LowerBound(s, v, ls, 0);
    assert Leaves(s)[0..] == Leaves(s) && v[0..0] == [];
    assert Leaves(s) == Symbols(Keys(s));
    assert Remaining(s, v, ls, 0) == multiset(Symbols(Keys(s)));
    MinimumIs(Keys(s), Keys(t), ToMerge(v, 0), v[|p|].height);
    RootIsHigh(s, v, ls, p, 0);
    FirstIsHigh(s, v, ls);
  }
}
