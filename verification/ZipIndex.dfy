// The sorted index of a ZIP central directory, in shared/thirdparty/miniz/miniz.c: heap
// sort by lower-cased file name, and the searches by name.
module ZipIndex {
  import opened Wrappers
  import opened Bytes

  const MAX_NAME: nat := 0xFFFF

  // ---------- the order of names ----------

  predicate Before(a: Name, b: Name)
    decreases |a|
  {
    if b == [] then false
    else if a == [] then true
    else a[0] < b[0] || (a[0] == b[0] && Before(a[1..], b[1..]))
  }

  lemma {:induction false} BeforeStrict(a: Name, b: Name)
    ensures !(Before(a, b) && Before(b, a))
    ensures !Before(a, b) && !Before(b, a) <==> a == b
    decreases |a|
  {
    if a != [] && b != [] {
      BeforeStrict(a[1..], b[1..]);
      assert a == [a[0]] + a[1..] && b == [b[0]] + b[1..];
    }
  }

  // A name comes before another one if it is smaller where they first differ, or ends there.
  ghost predicate DiffersAt(a: Name, b: Name, i: nat) {
    i <= |a| && i < |b| && a[..i] == b[..i] && (i < |a| ==> a[i] < b[i])
  }

  lemma {:induction false} BeforeExactly(a: Name, b: Name)
    ensures Before(a, b) <==> exists i: nat :: DiffersAt(a, b, i)
    decreases |a|
  {
    if a == [] {
      assert b != [] ==> DiffersAt(a, b, 0);
    } else if b != [] {
      BeforeExactly(a[1..], b[1..]);
      if Before(a, b) {
        if a[0] < b[0] {
          assert DiffersAt(a, b, 0);
        } else {
          var i: nat :| DiffersAt(a[1..], b[1..], i);
          assert a[..i + 1] == [a[0]] + a[1..][..i] && b[..i + 1] == [b[0]] + b[1..][..i];
          assert DiffersAt(a, b, i + 1);
        }
      }
      if i: nat :| DiffersAt(a, b, i) {
        if i > 0 {
          assert a[..i][0] == b[..i][0];
          assert a[1..][..i - 1] == a[..i][1..] && b[1..][..i - 1] == b[..i][1..];
          assert DiffersAt(a[1..], b[1..], i - 1);
        }
      }
    }
  }

  // Not being before carries over.
  lemma {:induction false} BeforeCarries(a: Name, b: Name, c: Name)
    requires !Before(a, b) && !Before(b, c)
    ensures !Before(a, c)
    decreases |a|
  {
    if a != [] && b != [] && c != [] && a[0] == b[0] == c[0] {
      BeforeCarries(a[1..], b[1..], c[1..]);
    }
  }

  // Names that agree up to i compare like what is left of them.
  lemma {:induction false} BeforeSkip(a: Name, b: Name, i: nat)
    requires i <= |a| && i <= |b| && a[..i] == b[..i]
    ensures Before(a, b) == Before(a[i..], b[i..])
  {
    if i > 0 {
      assert a[..i][0] == b[..i][0];
      assert a[1..][..i - 1] == a[..i][1..] && b[1..][..i - 1] == b[..i][1..];
      BeforeSkip(a[1..], b[1..], i - 1);
      assert a[1..][i - 1..] == a[i..] && b[1..][i - 1..] == b[i..];
    }
  }

  // The scan that both comparisons begin with: the first difference, ignoring case.
  method FirstDifference(l: Name, r: Name) returns (i: nat)
    ensures i <= |l| && i <= |r| && LowerName(l)[..i] == LowerName(r)[..i]
    ensures i == |l| || i == |r| || Lower(l[i]) != Lower(r[i])
  {
    i := 0;
    while i < |l| && i < |r| && Lower(l[i]) == Lower(r[i])
      invariant i <= |l| && i <= |r|
      invariant forall j :: 0 <= j < i ==> Lower(l[j]) == Lower(r[j])
    {
      i := i + 1;
    }
  }

  // mz_zip_reader_filename_less
  method FilenameLess(l: Name, r: Name) returns (less: bool)
    ensures less == Before(LowerName(l), LowerName(r))
  {
    var i := FirstDifference(l, r);
    BeforeSkip(LowerName(l), LowerName(r), i);
    var end := if |l| < |r| then |l| else |r|;
    less := if i == end then |l| < |r| else Lower(l[i]) < Lower(r[i]);
  }

  // mz_zip_filename_compare
  method FilenameCompare(l: Name, r: Name) returns (comp: int)
    ensures comp < 0 <==> Before(LowerName(l), LowerName(r))
    ensures comp == 0 <==> LowerName(l) == LowerName(r)
  {
    var a, b := LowerName(l), LowerName(r);
    var i := FirstDifference(l, r);
    BeforeSkip(a, b, i);
    BeforeStrict(a, b);
    BeforeSkip(b, a, i);
    var end := if |l| < |r| then |l| else |r|;
    comp := if i == end then |l| - |r| else Lower(l[i]) - Lower(r[i]);
  }

  // ---------- heaps ----------

  // File x does not come before file y.
  ghost predicate Ge(names: seq<Name>, x: nat, y: nat)
    requires x < |names| && y < |names|
  {
    !Before(LowerName(names[x]), LowerName(names[y]))
  }

  ghost predicate Files(names: seq<Name>, s: seq<nat>) {
    forall i :: 0 <= i < |s| ==> s[i] < |names|
  }

  ghost predicate HeapAt(names: seq<Name>, s: seq<nat>, n: nat, i: nat)
    requires n <= |s| && Files(names, s) && i < n
  {
    && (2 * i + 1 < n ==> Ge(names, s[i], s[2 * i + 1]))
    && (2 * i + 2 < n ==> Ge(names, s[i], s[2 * i + 2]))
  }

  ghost predicate Heap(names: seq<Name>, s: seq<nat>, lo: nat, n: nat) {
    n <= |s| && Files(names, s) && forall i: nat :: lo <= i < n ==> HeapAt(names, s, n, i)
  }

  // A heap but for the entry at hole, whose parent is not before its children.
  ghost predicate HeapBut(names: seq<Name>, s: seq<nat>, lo: nat, n: nat, hole: nat) {
    && n <= |s| && Files(names, s) && lo <= hole < n
    && (forall i: nat :: lo <= i < n && i != hole ==> HeapAt(names, s, n, i))
    && (hole > lo && (hole - 1) / 2 >= lo ==>
        && (2 * hole + 1 < n ==> Ge(names, s[(hole - 1) / 2], s[2 * hole + 1]))
        && (2 * hole + 2 < n ==> Ge(names, s[(hole - 1) / 2], s[2 * hole + 2])))
  }

  ghost predicate LargerChild(names: seq<Name>, s: seq<nat>, n: nat, root: nat, child: nat)
    requires n <= |s| && Files(names, s)
  {
    && child < n && (child == 2 * root + 1 || child == 2 * root + 2)
    && Ge(names, s[child], s[2 * root + 1])
    && (2 * root + 2 < n ==> Ge(names, s[child], s[2 * root + 2]))
  }

  function Swapped(s: seq<nat>, i: nat, j: nat): (t: seq<nat>)
    requires i < |s| && j < |s|
    ensures |t| == |s|
  {
    s[i := s[j]][j := s[i]]
  }

  lemma {:induction false} SwapPermutes(s: seq<nat>, i: nat, j: nat)
    requires i < |s| && j < |s|
    ensures multiset(Swapped(s, i, j)) == multiset(s)
  {
    assert multiset(s[i := s[j]]) == multiset(s) - multiset{s[i]} + multiset{s[j]};
    var t := s[i := s[j]];
    assert multiset(t[j := s[i]]) == multiset(t) - multiset{t[j]} + multiset{s[i]};
  }

  lemma {:induction false} SiftStep(names: seq<Name>, s: seq<nat>, lo: nat, n: nat, root: nat, child: nat)
    requires HeapBut(names, s, lo, n, root) && LargerChild(names, s, n, root, child)
    requires !Ge(names, s[root], s[child])
    ensures HeapBut(names, Swapped(s, root, child), lo, n, child)
  {
    var t := Swapped(s, root, child);
    BeforeStrict(LowerName(names[s[root]]), LowerName(names[s[child]]));
    assert HeapAt(names, s, n, child);
    assert Files(names, t);
    forall i: nat | lo <= i < n && i != child
      ensures HeapAt(names, t, n, i)
    {
      if i != root {
        assert HeapAt(names, s, n, i);
      }
    }
  }

  lemma {:induction false} SiftStop(names: seq<Name>, s: seq<nat>, lo: nat, n: nat, root: nat, child: nat)
    requires HeapBut(names, s, lo, n, root)
    requires 2 * root + 1 >= n || (LargerChild(names, s, n, root, child) && Ge(names, s[root], s[child]))
    ensures Heap(names, s, lo, n)
  {
    if 2 * root + 1 < n {
      var a := LowerName(names[s[root]]);
      var b := LowerName(names[s[child]]);
      BeforeCarries(a, b, LowerName(names[s[2 * root + 1]]));
      if 2 * root + 2 < n {
        BeforeCarries(a, b, LowerName(names[s[2 * root + 2]]));
      }
    }
  }

  // The entry at the top of a heap comes before no other.
  lemma {:induction false} HeapTop(names: seq<Name>, s: seq<nat>, n: nat, i: nat)
    requires Heap(names, s, 0, n) && i < n
    ensures Ge(names, s[0], s[i])
  {
    if i == 0 {
      BeforeStrict(LowerName(names[s[0]]), LowerName(names[s[0]]));
    } else {
      var p := (i - 1) / 2;
      HeapTop(names, s, n, p);
      assert HeapAt(names, s, n, p);
      BeforeCarries(LowerName(names[s[0]]), LowerName(names[s[p]]), LowerName(names[s[i]]));
    }
  }

  // ---------- the sort ----------

  // Entries n .. are sorted, and no entry before them comes after them.
  ghost predicate SortedFrom(names: seq<Name>, s: seq<nat>, n: nat) {
    && n <= |s| && Files(names, s)
    && forall i, j :: 0 <= i < j < |s| && n <= j ==> Ge(names, s[j], s[i])
  }

  lemma {:induction false} PermutedMember(s: seq<nat>, t: seq<nat>, i: nat)
    requires multiset(s) == multiset(t) && i < |t|
    ensures t[i] in s
  {
    assert t[i] in multiset(t);
  }

  // Rearranging the first n entries does not disturb the sorted rest.
  lemma {:induction false} SortedKept(names: seq<Name>, s: seq<nat>, t: seq<nat>, n: nat)
    requires SortedFrom(names, s, n) && |t| == |s| && t[n..] == s[n..] && multiset(t[..n]) == multiset(s[..n])
    ensures SortedFrom(names, t, n)
  {
    forall i | 0 <= i < n
      ensures t[i] in s[..n]
    {
      PermutedMember(s[..n], t[..n], i);
    }
    assert forall j :: n <= j < |s| ==> t[j] == t[n..][j - n] == s[j];
  }

  // The top of the heap goes behind it.
  lemma {:induction false} SortedGrows(names: seq<Name>, s: seq<nat>, end: nat)
    requires 0 < end < |s| && SortedFrom(names, s, end + 1) && Heap(names, s, 0, end + 1)
    ensures SortedFrom(names, Swapped(s, end, 0), end)
    ensures HeapBut(names, Swapped(s, end, 0), 0, end, 0)
  {
    var t := Swapped(s, end, 0);
    forall i: nat | i <= end
      ensures Ge(names, s[0], s[i])
    {
      HeapTop(names, s, end + 1, i);
    }
    forall i: nat | 0 < i < end
      ensures HeapAt(names, t, end, i)
    {
      assert HeapAt(names, s, end + 1, i);
    }
  }

  // The child that the sift compares with: the one that comes later.
  method Larger(names: seq<Name>, a: array<nat>, n: nat, root: nat) returns (child: nat)
    requires 2 * root + 1 < n <= a.Length && Files(names, a[..])
    ensures LargerChild(names, a[..], n, root, child) && root < child < n
    ensures child == 2 * root + 1 || child == 2 * root + 2
  {
    child := 2 * root + 1;
    BeforeStrict(LowerName(names[a[child]]), LowerName(names[a[child]]));
    if child + 1 < n {
      var less := FilenameLess(names[a[child]], names[a[child + 1]]);
      BeforeStrict(LowerName(names[a[child]]), LowerName(names[a[child + 1]]));
      BeforeStrict(LowerName(names[a[child + 1]]), LowerName(names[a[child + 1]]));
      if less {
        child := child + 1;
      }
    }
  }

  // MZ_SWAP_UINT32
  method Swap(a: array<nat>, n: nat, i: nat, j: nat)
    requires i < n <= a.Length && j < n
    modifies a
    ensures a[..] == Swapped(old(a[..]), i, j)
    ensures multiset(a[..n]) == multiset(old(a[..n])) && a[n..] == old(a[n..])
    ensures forall k :: 0 <= k < a.Length ==> a[k] in old(a[..])
  {
    ghost var s := a[..];
    SwapPermutes(s[..n], i, j);
    a[i], a[j] := a[j], a[i];
    assert a[..n] == Swapped(s[..n], i, j);
  }

  lemma {:induction false} HeapButFacts(names: seq<Name>, s: seq<nat>, lo: nat, n: nat, hole: nat)
    requires HeapBut(names, s, lo, n, hole)
    ensures n <= |s| && Files(names, s) && hole < n
  {
  }

  // The sift-down loop.
  method SiftDown(names: seq<Name>, a: array<nat>, lo: nat, n: nat)
    requires HeapBut(names, a[..], lo, n, lo)
    modifies a
    ensures n <= a.Length && Heap(names, a[..], lo, n)
    ensures multiset(a[..n]) == multiset(old(a[..n])) && a[n..] == old(a[n..])
  {
    hide HeapBut, Heap, LargerChild, Swapped, LowerName, Before;
    var root := lo;
    HeapButFacts(names, a[..], lo, n, root);
    while true
      invariant n <= a.Length && root < n && HeapBut(names, a[..], lo, n, root) && Files(names, a[..])
      invariant multiset(a[..n]) == multiset(old(a[..n])) && a[n..] == old(a[n..])
      decreases n - root
    {
      ghost var s := a[..];
      if 2 * root + 1 >= n {
        SiftStop(names, s, lo, n, root, root);
        break;
      }
      var child := Larger(names, a, n, root);
      var less := FilenameLess(names[a[root]], names[a[child]]);
      if !less {
        SiftStop(names, s, lo, n, root, child);
        break;
      }
      SiftStep(names, s, lo, n, root, child);
      Swap(a, n, root, child);
      HeapButFacts(names, a[..], lo, n, child);
      root := child;
    }
  }

  // mz_zip_reader_sort_central_dir_offsets_by_filename
  method SortByFilename(names: seq<Name>, a: array<nat>)
    requires Files(names, a[..])
    modifies a
    ensures SortedFrom(names, a[..], 0) && multiset(a[..]) == multiset(old(a[..]))
  {
    hide HeapBut, Heap, Swapped, SortedFrom;
    var size := a.Length;
    assert a[..size] == a[..];
    SortStart(names, a[..]);
    if size <= 1 {
      return;
    }
    var start := (size - 2) / 2;
    LeavesAreHeap(names, a[..], start + 1);
    while true
      invariant 0 <= start && 2 * start + 2 <= size && Heap(names, a[..], start + 1, size)
      invariant multiset(a[..size]) == multiset(old(a[..]))
      decreases start
    {
      HeapHole(names, a[..], start, size);
      SiftDown(names, a, start, size);
      if start == 0 {
        break;
      }
      start := start - 1;
    }
    HeapFacts(names, a[..], 0, size);
    SortStart(names, a[..]);
    var end := size - 1;
    while end > 0
      invariant 0 <= end < size && SortedFrom(names, a[..], end + 1) && Heap(names, a[..], 0, end + 1)
      invariant multiset(a[..size]) == multiset(old(a[..]))
    {
      end := ExtractTop(names, a, end);
    }
    assert a[..size] == a[..];
    SortEnd(names, a[..]);
  }

  // One turn of the second loop of the sort.
  method ExtractTop(names: seq<Name>, a: array<nat>, end: nat) returns (next: nat)
    requires 0 < end < a.Length && SortedFrom(names, a[..], end + 1) && Heap(names, a[..], 0, end + 1)
    modifies a
    ensures next == end - 1 && SortedFrom(names, a[..], end) && Heap(names, a[..], 0, end)
    ensures multiset(a[..a.Length]) == multiset(old(a[..a.Length]))
  {
    hide HeapBut, Heap, Swapped, SortedFrom;
    SortedGrows(names, a[..], end);
    Swap(a, a.Length, end, 0);
    ghost var t := a[..];
    SiftDown(names, a, 0, end);
    SortedKept(names, t, a[..], end);
    assert t == t[..end] + t[end..] && a[..] == a[..end] + a[end..];
    assert a[..a.Length] == a[..] && t == t[..a.Length];
    next := end - 1;
  }

  lemma {:induction false} SortStart(names: seq<Name>, s: seq<nat>)
    requires Files(names, s)
    ensures SortedFrom(names, s, |s|) && (|s| <= 1 ==> SortedFrom(names, s, 0))
  {
  }

  lemma {:induction false} SortEnd(names: seq<Name>, s: seq<nat>)
    requires |s| > 0 && SortedFrom(names, s, 1)
    ensures SortedFrom(names, s, 0)
  {
  }

  lemma {:induction false} LeavesAreHeap(names: seq<Name>, s: seq<nat>, lo: nat)
    requires Files(names, s) && 2 * lo + 1 >= |s|
    ensures Heap(names, s, lo, |s|)
  {
  }

  lemma {:induction false} HeapHole(names: seq<Name>, s: seq<nat>, lo: nat, n: nat)
    requires Heap(names, s, lo + 1, n) && lo < n
    ensures HeapBut(names, s, lo, n, lo)
  {
  }

  lemma {:induction false} HeapFacts(names: seq<Name>, s: seq<nat>, lo: nat, n: nat)
    requires Heap(names, s, lo, n)
    ensures Files(names, s)
  {
  }

  // ---------- the searches ----------

  // mz_zip_locate_file_binary_search
  method BinarySearch(names: seq<Name>, indices: array<nat>, name: Name) returns (index: Option<nat>)
    requires SortedFrom(names, indices[..], 0)
    ensures index.Some? ==> index.value in indices[..] && index.value < |names| && Same(names[index.value], name)
    ensures index.None? ==> forall i :: 0 <= i < indices.Length ==> !Same(names[indices[i]], name)
  {
    hide LowerName, Before;
    var l, h := 0, indices.Length - 1;
    while l <= h
      invariant 0 <= l <= h + 1 <= indices.Length
      invariant forall i :: 0 <= i < l || h < i < indices.Length ==> !Same(names[indices[i]], name)
    {
      var m := l + (h - l) / 2;
      var file := indices[m];
      var comp := FilenameCompare(names[file], name);
      if comp == 0 {
        return Some(file);
      }
      forall i | 0 <= i < indices.Length && (if comp < 0 then i <= m else i >= m)
        ensures !Same(names[indices[i]], name)
      {
        Beyond(names, indices[..], i, m, name, comp);
      }
      if comp < 0 {
        l := m + 1;
      } else {
        h := m - 1;
      }
    }
    index := None;
  }

  // What lies on the wrong side of a different name is different too.
  lemma {:induction false} Beyond(names: seq<Name>, s: seq<nat>, i: nat, m: nat, name: Name, comp: int)
    requires SortedFrom(names, s, 0) && i < |s| && m < |s| && (if comp < 0 then i <= m else i >= m)
    requires comp < 0 <==> Before(LowerName(names[s[m]]), LowerName(name))
    requires comp != 0 && (comp == 0 <==> LowerName(names[s[m]]) == LowerName(name))
    ensures !Same(names[s[i]], name)
  {
    var x, y, k := LowerName(names[s[i]]), LowerName(names[s[m]]), LowerName(name);
    BeforeStrict(y, k);
    if i < m {
      assert Ge(names, s[m], s[i]);
    } else if m < i {
      assert Ge(names, s[i], s[m]);
    }
  }

  // mz_zip_string_equal, when case does not matter
  method StringEqual(a: Name, b: Name) returns (equal: bool)
    requires |a| == |b|
    ensures equal == Same(a, b)
  {
    var i := 0;
    while i < |a|
      invariant 0 <= i <= |a| && forall j :: 0 <= j < i ==> Lower(a[j]) == Lower(b[j])
    {
      if Lower(a[i]) != Lower(b[i]) {
        assert LowerName(a)[i] != LowerName(b)[i];
        return false;
      }
      i := i + 1;
    }
    equal := true;
  }

  // The scan of mz_zip_reader_locate_file_v2 for a full path, whatever its case.
  method LinearScan(names: seq<Name>, name: Name) returns (index: Option<nat>)
    requires forall i :: 0 <= i < |names| ==> |names[i]| <= MAX_NAME
    ensures index.Some? ==> index.value < |names| && Same(names[index.value], name)
    ensures index.Some? ==> forall i :: 0 <= i < index.value ==> !Same(names[i], name)
    ensures index.None? ==> forall i :: 0 <= i < |names| ==> !Same(names[i], name)
  {
    SameLength(names, name);
    if |name| > MAX_NAME {
      return None;
    }
    for i := 0 to |names|
      invariant forall j :: 0 <= j < i ==> !Same(names[j], name)
    {
      if |names[i]| < |name| {
        continue;
      }
      if |names[i]| == |name| {
        var equal := StringEqual(name, names[i]);
        if equal {
          return Some(i);
        }
      }
    }
    index := None;
  }

  lemma {:induction false} SameLength(names: seq<Name>, name: Name)
    ensures forall i :: 0 <= i < |names| && Same(names[i], name) ==> |names[i]| == |name|
  {
    forall i | 0 <= i < |names| && Same(names[i], name)
      ensures |names[i]| == |name|
    {
      assert |LowerName(names[i])| == |names[i]| && |LowerName(name)| == |name|;
    }
  }

  // mz_zip_reader_locate_file_v2 without flags: with the index or without, an entry is
  // found exactly if one has the name.
  method LocateFile(names: seq<Name>, indices: array<nat>, isSorted: bool, name: Name) returns (index: Option<nat>)
    requires forall i :: 0 <= i < |names| ==> |names[i]| <= MAX_NAME
    requires isSorted ==> SortedFrom(names, indices[..], 0) && multiset(indices[..]) == multiset(seq(|names|, i => i))
    ensures index.Some? <==> exists i :: 0 <= i < |names| && Same(names[i], name)
    ensures index.Some? ==> index.value < |names| && Same(names[index.value], name)
  {
    if isSorted {
      index := BinarySearch(names, indices, name);
      forall i: nat | i < |names|
        ensures index.None? ==> !Same(names[i], name)
      {
        var all := seq(|names|, i => i);
        assert all[i] == i;
        PermutedMember(indices[..], all, i);
        var j :| 0 <= j < indices.Length && indices[j] == i;
      }
    } else {
      index := LinearScan(names, name);
    }
  }
}
