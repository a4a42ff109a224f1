// What a code costs, the least that any code for given weights can cost, and how long its
// longest word is then.
module CodeCost {
  import opened Bits

  // A symbol or a tree of symbols: its weight, and how much deeper its deepest symbol is.
  datatype Item = Item(weight: nat, height: nat)

  // An item with the length of its code.
  datatype Word = Word(item: Item, len: nat)

  // Items are compared by weight and then by height.
  predicate NotAfter(a: Item, b: Item) {
    a.weight < b.weight || (a.weight == b.weight && a.height <= b.height)
  }

  // The tree of two items.
  function Join(a: Item, b: Item): Item {
    Item(a.weight + b.weight, 1 + if a.height < b.height then b.height else a.height)
  }

  lemma {:induction false} JoinInOrder(a: Item, b: Item, c: Item, d: Item)
    requires NotAfter(a, b) && NotAfter(b, c) && NotAfter(c, d)
    ensures NotAfter(Join(a, b), Join(c, d))
  {
  }

  // The length of a text in which each symbol occurs as often as it weighs.
  ghost function Cost(c: seq<Word>): nat {
    if c == [] then 0 else c[0].item.weight * c[0].len + Cost(c[1..])
  }

  // No symbol is as deep as this.
  ghost predicate Above(c: seq<Word>, deep: nat) {
    forall i :: 0 <= i < |c| ==> c[i].len + c[i].item.height < deep
  }

  // One code is as cheap as another and, if it is no cheaper, not deeper.
  ghost predicate NoWorse(d: seq<Word>, c: seq<Word>, deep: nat) {
    Cost(d) <= Cost(c) && (Cost(d) == Cost(c) && Above(c, deep) ==> Above(d, deep))
  }

  ghost predicate Bounded(c: seq<Word>, top: nat) {
    forall i :: 0 <= i < |c| ==> c[i].len <= top
  }

  // The code space that is taken, in units of 2^-top.
  ghost function Space(c: seq<Word>, top: nat): nat
    requires Bounded(c, top)
  {
    if c == [] then 0 else Pow2(top - c[0].len) + Space(c[1..], top)
  }

  ghost function Items(c: seq<Word>): multiset<Item> {
    if c == [] then multiset{} else multiset{c[0].item} + Items(c[1..])
  }

  // The lengths of any prefix-free code take no more than all of the code space.
  ghost predicate Fits(c: seq<Word>, top: nat) {
    Bounded(c, top) && Space(c, top) <= Pow2(top)
  }

  // No code for the items costs less, and none that costs as little is less deep.
  ghost predicate AtLeast(m: multiset<Item>, bound: nat, deep: nat) {
    forall c: seq<Word>, top: nat :: Items(c) == m && Fits(c, top) ==> NotBelow(c, bound, deep)
  }

  ghost predicate NotBelow(c: seq<Word>, bound: nat, deep: nat) {
    Cost(c) >= bound && (Cost(c) == bound ==> !Above(c, deep))
  }

  // ---------- sums ----------

  lemma {:induction false} CostConcat(a: seq<Word>, b: seq<Word>)
    ensures Cost(a + b) == Cost(a) + Cost(b) && Items(a + b) == Items(a) + Items(b)
    decreases |a|
  {
    if a == [] {
      assert a + b == b;
    } else {
      assert (a + b)[1..] == a[1..] + b;
      CostConcat(a[1..], b);
    }
  }

  lemma {:induction false} BoundedConcat(a: seq<Word>, b: seq<Word>, top: nat)
    requires Bounded(a + b, top)
    ensures Bounded(a, top) && Bounded(b, top)
  {
    assert forall i :: 0 <= i < |a| ==> (a + b)[i] == a[i];
    assert forall i :: 0 <= i < |b| ==> (a + b)[|a| + i] == b[i];
  }

  lemma {:induction false} SpaceConcat(a: seq<Word>, b: seq<Word>, top: nat)
    requires Bounded(a + b, top)
    ensures Bounded(a, top) && Bounded(b, top) && Space(a + b, top) == Space(a, top) + Space(b, top)
    decreases |a|
  {
    hide Pow2;
    BoundedConcat(a, b, top);
    if a == [] {
      assert a + b == b;
    } else {
      assert (a + b)[1..] == a[1..] + b;
      SpaceConcat(a[1..], b, top);
    }
  }

  lemma {:induction false} SumsConcat(a: seq<Word>, b: seq<Word>, top: nat)
    requires Bounded(a + b, top)
    ensures Bounded(a, top) && Bounded(b, top) && Space(a + b, top) == Space(a, top) + Space(b, top)
    ensures Cost(a + b) == Cost(a) + Cost(b) && Items(a + b) == Items(a) + Items(b)
  {
    CostConcat(a, b);
    SpaceConcat(a, b, top);
  }

  lemma {:induction false} SumsSet(c: seq<Word>, i: nat, w: Word, top: nat)
    requires i < |c| && Bounded(c, top) && w.len <= top
    ensures Bounded(c[i := w], top)
    ensures Space(c[i := w], top) + Pow2(top - c[i].len) == Space(c, top) + Pow2(top - w.len)
    ensures Cost(c[i := w]) + c[i].item.weight * c[i].len == Cost(c) + w.item.weight * w.len
    ensures w.item == c[i].item ==> Items(c[i := w]) == Items(c)
  {
    hide Pow2;
    var d := c[i := w];
    if i == 0 {
      assert d[1..] == c[1..];
    } else {
      assert d[1..] == c[1..][i - 1 := w];
      SumsSet(c[1..], i - 1, w, top);
    }
  }

  // A word can be moved to the front.
  lemma {:induction false} Moved(a: seq<Word>, f: seq<Word>, b: seq<Word>, top: nat)
    requires Bounded(a + (f + b), top)
    ensures Bounded(f + (a + b), top) && Space(f + (a + b), top) == Space(a + (f + b), top)
    ensures Cost(f + (a + b)) == Cost(a + (f + b))
    ensures Items(f + (a + b)) == Items(a + (f + b)) == Items(f) + Items(a + b)
  {
    hide Pow2, Cost, Space, Items;
    SumsConcat(a, f + b, top);
    SumsConcat(f, b, top);
    assert Bounded(a + b, top);
    SumsConcat(a, b, top);
    assert Bounded(f + (a + b), top);
    SumsConcat(f, a + b, top);
  }

  lemma {:induction false} OneItem(w: Word)
    ensures Items([w]) == multiset{w.item}
  {
    assert [w][1..] == [];
  }

  // A word of a given item can be moved to the front.
  lemma {:induction false} ToFront(c: seq<Word>, x: Item, top: nat, deep: nat) returns (len: nat, rest: seq<Word>)
    requires x in Items(c) && Fits(c, top)
    ensures Fits([Word(x, len)] + rest, top) && Space([Word(x, len)] + rest, top) == Space(c, top)
    ensures Cost([Word(x, len)] + rest) == Cost(c) && Items([Word(x, len)] + rest) == Items(c)
    ensures Items(rest) == Items(c) - multiset{x} && (Above(c, deep) ==> Above([Word(x, len)] + rest, deep))
  {
    hide Pow2, Cost, Space, Items;
    var i := FindItem(c, x);
    len := c[i].len;
    rest := c[..i] + c[i + 1..];
    var f := [Word(x, len)];
    assert c == c[..i] + (f + c[i + 1..]);
    Moved(c[..i], f, c[i + 1..], top);
    OneItem(f[0]);
  }

  lemma {:induction false} FindItem(c: seq<Word>, x: Item) returns (i: nat)
    requires x in Items(c)
    ensures i < |c| && c[i].item == x
  {
    if c[0].item == x {
      i := 0;
    } else {
      i := FindItem(c[1..], x);
      i := i + 1;
    }
  }

  lemma {:induction false} ItemIn(c: seq<Word>, i: nat)
    requires i < |c|
    ensures c[i].item in Items(c)
  {
    if i > 0 {
      ItemIn(c[1..], i - 1);
    }
  }

  // ---------- longest codes for the first ----------

  // Two words with their lengths exchanged.
  function Swapped(c: seq<Word>, i: nat, j: nat): (d: seq<Word>)
    requires i < |c| && j < |c|
    ensures |d| == |c| && forall k :: 0 <= k < |d| ==> d[k].item == c[k].item
  {
    c[i := Word(c[i].item, c[j].len)][j := Word(c[j].item, c[i].len)]
  }

  // Exchanging the lengths of two words so that the first item gets the longer is no worse.
  lemma {:induction false} SwapLens(c: seq<Word>, i: nat, j: nat, top: nat, deep: nat)
    requires i < |c| && j < |c| && NotAfter(c[i].item, c[j].item) && c[i].len <= c[j].len && Fits(c, top)
    ensures Fits(Swapped(c, i, j), top) && NoWorse(Swapped(c, i, j), c, deep) && Items(Swapped(c, i, j)) == Items(c)
  {
    hide Pow2, Cost, Space, Items;
    var d1 := c[i := Word(c[i].item, c[j].len)];
    SumsSet(c, i, Word(c[i].item, c[j].len), top);
    SumsSet(d1, j, Word(c[j].item, c[i].len), top);
    Rearranged(c[i].item.weight, c[j].item.weight, c[i].len, c[j].len);
    if i == j || c[i].len == c[j].len {
      assert Swapped(c, i, j) == c;
    }
  }

  lemma {:induction false} Rearranged(x: nat, y: nat, k: nat, l: nat)
    requires x <= y && k <= l
    ensures x * l + y * k <= x * k + y * l
    ensures x * l + y * k == x * k + y * l ==> x == y || k == l
  {
    assert (y - x) * (l - k) == y * l - y * k - x * l + x * k;
    if x < y && k < l {
      MulMono(1, y - x, l - k);
    } else {
      assert (y - x) * (l - k) == 0;
    }
  }

  lemma {:induction false} Longest(c: seq<Word>, from: nat) returns (a: nat)
    requires from < |c|
    ensures from <= a < |c| && forall i :: from <= i < |c| ==> c[i].len <= c[a].len
    decreases |c| - from
  {
    a := from;
    if from + 1 < |c| {
      var b := Longest(c, from + 1);
      a := if c[from].len < c[b].len then b else from;
    }
  }

  lemma {:induction false} NoWorseTrans(e: seq<Word>, d: seq<Word>, c: seq<Word>, deep: nat)
    requires NoWorse(e, d, deep) && NoWorse(d, c, deep)
    ensures NoWorse(e, c, deep)
  {
  }

  // The two first items get the two longest codes.
  lemma {:induction false} LightestLongest(c: seq<Word>, top: nat, deep: nat) returns (d: seq<Word>)
    requires |c| >= 2 && Fits(c, top)
    requires NotAfter(c[0].item, c[1].item) && forall i :: 2 <= i < |c| ==> NotAfter(c[1].item, c[i].item)
    ensures |d| == |c| && Fits(d, top) && NoWorse(d, c, deep) && Items(d) == Items(c)
    ensures d[0].item == c[0].item && d[1].item == c[1].item
    ensures d[1].len <= d[0].len && forall i :: 2 <= i < |d| ==> d[i].len <= d[1].len
  {
    hide Fits, Cost, Items, NoWorse;
    var a := Longest(c, 0);
    SwapLens(c, 0, a, top, deep);
    var e := Swapped(c, 0, a);
    var b := Longest(e, 1);
    SwapLens(e, 1, b, top, deep);
    d := Swapped(e, 1, b);
    NoWorseTrans(d, e, c, deep);
  }

  // ---------- merging the first two ----------

  lemma {:induction false} SpaceMultiple(c: seq<Word>, top: nat, len: nat) returns (q: nat)
    requires len <= top && forall i :: 0 <= i < |c| ==> c[i].len <= len
    ensures Bounded(c, top) && Space(c, top) == q * Pow2(top - len)
  {
    if c == [] {
      q := 0;
    } else {
      q := SpaceMultiple(c[1..], top, len);
      Pow2Add(len - c[0].len, top - len);
      Together(Pow2(len - c[0].len), q, Pow2(top - len));
      q := q + Pow2(len - c[0].len);
    }
  }

  lemma {:induction false} Together(a: nat, b: nat, u: nat)
    ensures (b + a) * u == a * u + b * u
  {
  }

  // There is room to make the longest code as short as the second longest.
  lemma {:induction false} RoomForBoth(c: seq<Word>, top: nat)
    requires |c| >= 2 && Fits(c, top) && c[1].len <= c[0].len && forall i :: 2 <= i < |c| ==> c[i].len <= c[1].len
    ensures c[1].len >= 1 && Bounded(c[2..], top) && Space(c[2..], top) + Pow2(top - (c[1].len - 1)) <= Pow2(top)
  {
    var l, rest := c[1].len, c[2..];
    var u := Pow2(top - l);
    assert l == 0 ==> u == Pow2(top);
    assert c[1..][1..] == rest;
    assert Space(c, top) == Pow2(top - c[0].len) + (u + Space(rest, top));
    if c[0].len > l {
      var q := SpaceMultiple(c[1..], top, l);
      Pow2Add(l, top - l);
      RoundedUp(q, Pow2(l), u);
    }
    assert 2 * u <= Pow2(top);
    assert l >= 1;
    assert Pow2(top - (l - 1)) == 2 * u;
  }

  lemma {:induction false} RoundedUp(q: nat, p: nat, u: nat)
    requires q * u < p * u
    ensures q * u + u <= p * u
  {
    if q >= p {
      MulMono(p, q, u);
    } else {
      MulMono(q + 1, p, u);
    }
  }

  // Two words, in front of the others.
  lemma {:induction false} BothToFront(c: seq<Word>, top: nat, deep: nat, x: Item, y: Item, r: multiset<Item>)
      returns (e: seq<Word>)
    requires Fits(c, top) && Items(c) == r + multiset{x} + multiset{y}
    ensures |e| >= 2 && Fits(e, top) && NoWorse(e, c, deep) && Cost(e) == Cost(c) && Items(e) == Items(c)
    ensures e[0].item == x && e[1].item == y && Items(e[2..]) == r
  {
    hide Pow2, Fits, Cost, Items, Space, Above;
    var l0, rest0 := ToFront(c, x, top, deep);
    assert Items(rest0) == r + multiset{y};
    FitsTail(Word(x, l0), rest0, top);
    var l1, rest := ToFront(rest0, y, top, deep);
    assert Items(rest) == r;
    Refront(Word(x, l0), rest0, [Word(y, l1)] + rest, top, deep);
    e := [Word(x, l0)] + ([Word(y, l1)] + rest);
    assert e[2..] == rest;
  }

  // A code for the items gives one for the items with the first two joined, which is
  // cheaper by what these two weigh, and not deeper if it is not cheaper still.
  lemma {:induction false} MergeLightest(c: seq<Word>, top: nat, deep: nat, x: Item, y: Item, r: multiset<Item>)
      returns (d: seq<Word>)
    requires Fits(c, top) && Items(c) == r + multiset{x} + multiset{y}
    requires NotAfter(x, y) && forall z :: z in r ==> NotAfter(y, z)
    ensures Fits(d, top) && Items(d) == r + multiset{Join(x, y)} && Cost(d) + x.weight + y.weight <= Cost(c)
    ensures Cost(d) + x.weight + y.weight == Cost(c) && Above(c, deep) ==> Above(d, deep)
  {
    hide Pow2, Fits, Cost, Items, Space, Above;
    var e := BothToFront(c, top, deep, x, y, r);
    forall i | 2 <= i < |e|
      ensures NotAfter(y, e[i].item)
    {
      ItemIn(e[2..], i - 2);
    }
    var f := LightestLongest(e, top, deep);
    RoomForBoth(f, top);
    d := [Word(Join(x, y), f[1].len - 1)] + f[2..];
    MergedSums(f, d, top);
    MergedDepth(f, d, deep);
    MergedItems(f, d, r, x, y);
  }

  lemma {:induction false} FitsTail(w: Word, rest: seq<Word>, top: nat)
    requires Fits([w] + rest, top)
    ensures Fits(rest, top)
  {
    assert ([w] + rest)[1..] == rest;
    assert forall i :: 0 <= i < |rest| ==> ([w] + rest)[1 + i] == rest[i];
  }

  lemma {:induction false} Refront(w: Word, a: seq<Word>, b: seq<Word>, top: nat, deep: nat)
    requires Fits([w] + a, top) && Fits(a, top) && Fits(b, top) && Cost(a) == Cost(b) && Items(a) == Items(b)
    requires Space(a, top) == Space(b, top) && (Above(a, deep) ==> Above(b, deep))
    ensures Fits([w] + b, top) && Cost([w] + b) == Cost([w] + a) && Items([w] + b) == Items([w] + a)
    ensures Above([w] + a, deep) ==> Above([w] + b, deep)
  {
    hide Pow2, Above;
    assert ([w] + a)[1..] == a && ([w] + b)[1..] == b;
    assert ([w] + a)[0] == w;
    AboveFront(w, a, deep);
    AboveFront(w, b, deep);
  }

  lemma {:induction false} AboveFront(w: Word, a: seq<Word>, deep: nat)
    ensures Above([w] + a, deep) <==> w.len + w.item.height < deep && Above(a, deep)
  {
    assert ([w] + a)[0] == w;
    assert forall i :: 0 <= i < |a| ==> ([w] + a)[1 + i] == a[i];
  }

  lemma {:induction false} MergedSums(f: seq<Word>, d: seq<Word>, top: nat)
    requires |f| >= 2 && Fits(f, top) && f[1].len <= f[0].len && f[1].len >= 1
    requires Bounded(f[2..], top) && Space(f[2..], top) + Pow2(top - (f[1].len - 1)) <= Pow2(top)
    requires d == [Word(Join(f[0].item, f[1].item), f[1].len - 1)] + f[2..]
    ensures Fits(d, top) && Cost(d) + f[0].item.weight + f[1].item.weight <= Cost(f)
  {
    hide Pow2;
    assert d[1..] == f[2..] && f[1..][1..] == f[2..];
    Shortened(f[0].item.weight, f[1].item.weight, f[0].len, f[1].len);
  }

  lemma {:induction false} MergedDepth(f: seq<Word>, d: seq<Word>, deep: nat)
    requires |f| >= 2 && f[1].len <= f[0].len && f[1].len >= 1
    requires d == [Word(Join(f[0].item, f[1].item), f[1].len - 1)] + f[2..]
    ensures Above(f, deep) ==> Above(d, deep)
  {
    assert forall i :: 1 <= i < |d| ==> d[i] == f[i + 1];
  }

  lemma {:induction false} Shortened(x: nat, y: nat, k: nat, l: nat)
    requires 1 <= l <= k
    ensures (x + y) * (l - 1) + x + y <= x * k + y * l
  {
    assert (x + y) * (l - 1) + x + y == (x + y) * l;
    assert (x + y) * l == x * l + y * l;
    MulMono(l, k, x);
  }

  lemma {:induction false} MergedItems(f: seq<Word>, d: seq<Word>, r: multiset<Item>, x: Item, y: Item)
    requires |f| >= 2 && f[0].item == x && f[1].item == y && f[1].len >= 1
    requires d == [Word(Join(x, y), f[1].len - 1)] + f[2..] && Items(f) == r + multiset{x} + multiset{y}
    ensures Items(d) == r + multiset{Join(x, y)}
  {
    var w := Items(f[2..]);
    assert f[1..][1..] == f[2..] && d[1..] == f[2..];
    assert Items(f) == multiset{x} + (multiset{y} + w);
    Cancelled(r, w, x, y);
    assert Items(d) == multiset{Join(x, y)} + w;
  }

  lemma {:induction false} Cancelled(r: multiset<Item>, w: multiset<Item>, x: Item, y: Item)
    requires multiset{x} + (multiset{y} + w) == r + multiset{x} + multiset{y}
    ensures w == r
  {
    assert w == multiset{x} + (multiset{y} + w) - multiset{x} - multiset{y};
    assert r == r + multiset{x} + multiset{y} - multiset{x} - multiset{y};
  }

  // The lower bound grows by what is merged.
  lemma {:induction false} MergeBound(r: multiset<Item>, x: Item, y: Item, bound: nat, deep: nat)
    requires NotAfter(x, y) && (forall z :: z in r ==> NotAfter(y, z)) && AtLeast(r + multiset{Join(x, y)}, bound, deep)
    ensures AtLeast(r + multiset{x} + multiset{y}, bound + x.weight + y.weight, deep)
  {
    hide Fits, Cost, Items, Above;
    forall c: seq<Word>, top: nat | Items(c) == r + multiset{x} + multiset{y} && Fits(c, top)
      ensures NotBelow(c, bound + x.weight + y.weight, deep)
    {
      var d := MergeLightest(c, top, deep, x, y, r);
      assert NotBelow(d, bound, deep);
    }
  }

  // Where one item is high, every code is deep.
  lemma {:induction false} HighItem(m: multiset<Item>, x: Item)
    requires x in m
    ensures AtLeast(m, 0, x.height)
  {
    hide Fits, Cost, Items;
    forall c: seq<Word>, top: nat | Items(c) == m && Fits(c, top)
      ensures NotBelow(c, 0, x.height)
    {
      var i := FindItem(c, x);
    }
  }

  // ---------- the cheapest lengths ----------

  // Symbols of these weights with codes of these lengths.
  function Coded(weights: seq<nat>, lens: seq<nat>): (c: seq<Word>)
    requires |weights| == |lens|
    ensures |c| == |weights| && forall i :: 0 <= i < |c| ==> c[i] == Word(Item(weights[i], 0), lens[i])
  {
    seq(|weights|, i requires 0 <= i < |weights| => Word(Item(weights[i], 0), lens[i]))
  }

  function Symbols(weights: seq<nat>): (s: seq<Item>)
    ensures |s| == |weights| && forall i :: 0 <= i < |s| ==> s[i] == Item(weights[i], 0)
  {
    seq(|weights|, i requires 0 <= i < |weights| => Item(weights[i], 0))
  }

  // No lengths that fit the code space make a shorter text.
  ghost predicate Minimum(weights: seq<nat>, lens: seq<nat>) {
    && |lens| == |weights|
    && forall other: seq<nat>, top: nat :: |other| == |weights| && Fits(Coded(weights, other), top) ==>
        Cost(Coded(weights, lens)) <= Cost(Coded(weights, other))
  }

  ghost predicate AsCheap(weights: seq<nat>, lens: seq<nat>, other: seq<nat>, top: nat)
    requires |lens| == |weights|
  {
    && |other| == |weights| && Fits(Coded(weights, other), top)
    && Cost(Coded(weights, other)) == Cost(Coded(weights, lens))
  }

  // Lengths that make as short a text have one of at least deep among them.
  ghost predicate Reaches(weights: seq<nat>, lens: seq<nat>, deep: nat) {
    && |lens| == |weights|
    && forall other: seq<nat>, top: nat :: AsCheap(weights, lens, other, top) ==>
        exists i :: 0 <= i < |other| && other[i] >= deep
  }

  lemma {:induction false} CodedItems(weights: seq<nat>, lens: seq<nat>)
    requires |weights| == |lens|
    ensures Items(Coded(weights, lens)) == multiset(Symbols(weights))
    decreases |weights|
  {
    if weights != [] {
      CodedItems(weights[1..], lens[1..]);
      assert Coded(weights, lens)[1..] == Coded(weights[1..], lens[1..]);
      assert Symbols(weights) == [Symbols(weights)[0]] + Symbols(weights[1..]);
    }
  }

  lemma {:induction false} MinimumIs(weights: seq<nat>, lens: seq<nat>, bound: nat, deep: nat)
    requires |weights| == |lens| && AtLeast(multiset(Symbols(weights)), bound, deep)
    requires Cost(Coded(weights, lens)) == bound
    ensures Minimum(weights, lens) && Reaches(weights, lens, deep)
  {
    hide Cost, Fits, Items, Symbols;
    forall other: seq<nat>, top: nat | |other| == |weights| && Fits(Coded(weights, other), top)
      ensures bound <= Cost(Coded(weights, other))
      ensures Cost(Coded(weights, other)) == bound ==> exists i :: 0 <= i < |other| && other[i] >= deep
    {
      CodedItems(weights, other);
      assert NotBelow(Coded(weights, other), bound, deep);
    }
  }
}
