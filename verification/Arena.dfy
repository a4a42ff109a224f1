// shared/ch_arena.h: an arena allocator that lives in its own first chunk.
module Arena {
  import opened Wrappers
  import opened Bits

  const NULL: nat := 0
  const CHUNK_HEADER: nat := PTR
  // first_chunk.prev, last_chunk, ptr, n_free, chunk_size
  const ARENA_HEADER: nat := 5 * PTR

  // CH_ARENA_ALIGN
  function Align(x: nat): nat {
    AlignTo(x, PTR)
  }

  lemma {:induction false} AlignFacts(x: nat)
    ensures Aligned(Align(x)) && x <= Align(x) < x + PTR
    ensures forall y: nat :: Aligned(y) && x <= y ==> Align(x) <= y
    ensures Align(x + PTR) == Align(x) + PTR
  {
    hide Align, Aligned;
    PtrAligned();
    LeastAligned(x);
    LeastAligned(x + PTR);
    AlignedSums(Align(x), PTR);
    AlignedSums(Align(x + PTR), PTR);
  }

  lemma {:induction false} LeastAligned(x: nat)
    ensures Aligned(Align(x)) && x <= Align(x) < x + PTR
    ensures forall y: nat :: Aligned(y) && x <= y ==> Align(x) <= y
  {
    hide AlignTo;
    var k := PtrBits();
    AlignIsLeastMultiple(x, k);
  }

  ghost predicate Aligned(x: int) {
    x % PTR == 0
  }

  lemma {:induction false} AlignedSums(x: int, y: int)
    requires Aligned(x) && Aligned(y)
    ensures Aligned(x + y) && Aligned(x - y) && Aligned(x * 2)
  {
    DivModUnique(x + y, PTR, x / PTR + y / PTR, 0);
    DivModUnique(x - y, PTR, x / PTR - y / PTR, 0);
    DivModUnique(x * 2, PTR, x / PTR * 2, 0);
  }

  lemma {:induction false} PtrAligned()
    ensures Aligned(PTR) && Aligned(CHUNK_HEADER) && Aligned(ARENA_HEADER)
  {
  }

  predicate Disjoint(a: nat, n: nat, b: nat, m: nat) {
    a + n <= b || b + m <= a
  }

  // Live blocks are aligned, not empty, and do not overlap.
  ghost predicate Live(blocks: map<nat, nat>, brk: nat) {
    && Aligned(brk) && brk > 0
    && (forall a :: a in blocks ==> a != NULL && Aligned(a) && blocks[a] > 0 && a + blocks[a] <= brk)
    && (forall a, b :: a in blocks && b in blocks && a != b ==> Disjoint(a, blocks[a], b, blocks[b]))
  }

  lemma {:induction false} NewBlock(blocks: map<nat, nat>, brk: nat, size: nat)
    requires Live(blocks, brk) && size > 0
    ensures brk > 0 && Aligned(brk) && brk !in blocks && Live(blocks[brk := size], brk + Align(size))
  {
    hide Align, Aligned;
    AlignFacts(size);
    AlignedSums(brk, Align(size));
    var more := blocks[brk := size];
    forall a, b | a in more && b in more && a != b
      ensures Disjoint(a, more[a], b, more[b])
    {
      if a != brk && b != brk {
        assert Disjoint(a, blocks[a], b, blocks[b]);
      }
    }
  }

  // malloc and free: live blocks by address, and the first word of each.
  class Heap {
    var blocks: map<nat, nat>
    var words: map<nat, nat>
    var brk: nat

    ghost predicate Valid()
      reads this
    {
      words.Keys == blocks.Keys && Live(blocks, brk)
    }

    constructor ()
      ensures Valid() && blocks == map[]
    {
      blocks, words, brk := map[], map[], PTR;
      new;
      PtrAligned();
    }

    // The memory of a new block overlaps no live one; there may be none.
    method Malloc(size: nat) returns (p: Option<nat>)
      requires Valid() && size > 0
      modifies this
      ensures Valid()
      ensures p == None ==> blocks == old(blocks) && words == old(words)
      ensures p.Some? ==> p.value != NULL && Aligned(p.value) && p.value !in old(blocks)
      ensures p.Some? ==> blocks == old(blocks)[p.value := size] && words == old(words)[p.value := NULL]
    {
      hide Align, Aligned, Live;
      var fail: bool := *;
      if fail {
        return None;
      }
      NewBlock(blocks, brk, size);
      p := Some(brk);
      blocks := blocks[brk := size];
      words := words[brk := NULL];
      brk := brk + Align(size);
    }

    method Free(a: nat)
      requires Valid() && a in blocks
      modifies this
      ensures Valid() && blocks == old(blocks) - {a} && words == old(words) - {a}
    {
      blocks := blocks - {a};
      words := words - {a};
    }

    method Store(a: nat, word: nat)
      requires Valid() && a in blocks
      modifies this`words
      ensures Valid() && words == old(words)[a := word]
    {
      words := words[a := word];
    }
  }

  // Memory that the arena has given out, and the chunk that it is part of.
  datatype Block = Block(addr: nat, size: nat, chunk: nat)

  ghost predicate Apart(given: seq<Block>) {
    forall i, j :: 0 <= i < j < |given| ==> Disjoint(given[i].addr, given[i].size, given[j].addr, given[j].size)
  }

  // The chunks, from the last one to the first, linked by their first words.
  ghost predicate Chain(chunks: seq<nat>, last: nat, words: map<nat, nat>) {
    && |chunks| > 0 && chunks[0] == last
    && (forall i :: 0 <= i < |chunks| ==> chunks[i] in words && chunks[i] != NULL)
    && (forall i, j :: 0 <= i < j < |chunks| ==> chunks[i] != chunks[j])
    && (forall i :: 0 <= i < |chunks| - 1 ==> words[chunks[i]] == chunks[i + 1])
    && words[chunks[|chunks| - 1]] == NULL
  }

  // What a chunk begins with: the first one with the fields of the arena.
  function Header(chunks: seq<nat>, c: nat): nat
    requires |chunks| > 0
  {
    if c == chunks[|chunks| - 1] then ARENA_HEADER else CHUNK_HEADER
  }

  // Every block given out is aligned and within its chunk, behind the chunk's header.
  ghost predicate Inside(given: seq<Block>, chunks: seq<nat>, blocks: map<nat, nat>)
    requires |chunks| > 0
  {
    forall i :: 0 <= i < |given| ==>
      && Aligned(given[i].addr)
      && given[i].chunk in chunks && given[i].chunk in blocks
      && given[i].chunk + Header(chunks, given[i].chunk) <= given[i].addr
      && given[i].addr + given[i].size <= given[i].chunk + blocks[given[i].chunk]
  }

  class Arena {
    const heap: Heap
    var lastChunk: nat
    var ptr: nat
    var nFree: nat
    var chunkSize: nat
    ghost var Chunks: seq<nat>
    ghost var Given: seq<Block>

    ghost predicate Valid()
      reads this, heap
    {
      && heap.Valid()
      && |Chunks| > 0 && Chain(Chunks, lastChunk, heap.words)
      && lastChunk in heap.blocks && (forall c :: c in Chunks ==> c in heap.blocks)
      && Inside(Given, Chunks, heap.blocks)
      && Apart(Given)
      && Aligned(nFree) && Aligned(ptr)
      && chunkSize > 0 && Aligned(chunkSize)
      && Chunks[|Chunks| - 1] in heap.blocks && heap.blocks[Chunks[|Chunks| - 1]] >= ARENA_HEADER
      && lastChunk + Header(Chunks, lastChunk) <= ptr
      && ptr + nFree == lastChunk + heap.blocks[lastChunk]
      && (forall i :: 0 <= i < |Given| && Given[i].chunk == lastChunk ==> Given[i].addr + Given[i].size <= ptr)
    }

    constructor (heap: Heap, at: nat, size: nat)
      requires heap.Valid() && at != NULL && Aligned(at) && at in heap.blocks && heap.blocks[at] == ARENA_HEADER + size
      requires heap.words[at] == NULL
      requires size > 0 && Aligned(size)
      ensures Valid() && this.heap == heap && Chunks == [at] && Given == []
    {
      hide Aligned, Chain, Apart, Inside, Live;
      this.heap := heap;
      lastChunk := at;
      ptr := at + ARENA_HEADER;
      nFree := size;
      chunkSize := size;
      Chunks := [at];
      Given := [];
      new;
      PtrAligned();
      AlignedSums(at, ARENA_HEADER);
      Started(at, heap.words, heap.blocks);
    }

    // ch_arena_new
    static method New(heap: Heap, size: nat) returns (a: Arena?)
      requires heap.Valid()
      modifies heap
      ensures heap.Valid()
      ensures a == null ==> heap.blocks == old(heap.blocks)
      ensures a != null ==> fresh(a) && a.heap == heap && a.Valid() && a.Given == []
      ensures a != null ==> heap.blocks - Elems(a.Chunks) == old(heap.blocks)
    {
      hide Align, Aligned, Live, Chain, Inside, Apart;
      var init := Align(if size > PTR then size else PTR);
      AlignFacts(if size > PTR then size else PTR);
      var p := heap.Malloc(ARENA_HEADER + init);
      if p == None {
        return null;
      }
      heap.Store(p.value, NULL);
      assert heap.blocks - Elems([p.value]) == old(heap.blocks);
      a := new Arena(heap, p.value, init);
    }

    // ch_arena_alloc. The test for room is made before n is rounded up.
    method Alloc(n0: nat) returns (p: Option<nat>)
      requires Valid()
      modifies this, heap
      ensures Valid()
      ensures forall b :: b in old(heap.blocks) ==> b in heap.blocks && heap.blocks[b] == old(heap.blocks[b])
      ensures |Chunks| > 0 && |old(Chunks)| > 0 && Chunks[|Chunks| - 1] == old(Chunks[|Chunks| - 1])
      ensures p.Some? ==> Disjoint(p.value, Align(if n0 > 1 then n0 else 1), Chunks[|Chunks| - 1], ARENA_HEADER)
      ensures p == None ==> Given == old(Given) && Chunks == old(Chunks) && heap.blocks == old(heap.blocks)
      ensures p.Some? ==> Given == old(Given) + [Block(p.value, Align(if n0 > 1 then n0 else 1), lastChunk)]
      ensures p.Some? && Chunks == old(Chunks) ==> heap.blocks == old(heap.blocks)
      ensures p.Some? && Chunks != old(Chunks) ==>
        Chunks == [lastChunk] + old(Chunks) && heap.blocks - {lastChunk} == old(heap.blocks)
    {
      hide Align, Aligned, Apart, Chain, Inside, Live;
      var n := if n0 > 1 then n0 else 1;
      if nFree < n {
        var grown := Grow(n);
        if !grown {
          return None;
        }
      }
      p := Carve(n);
      OffArena(Given, Chunks, lastChunk, heap.words, heap.blocks, heap.brk, |Given| - 1);
    }

    // A new chunk, at least twice as large as the last one.
    method Grow(n: nat) returns (ok: bool)
      requires Valid() && n > 0
      modifies this`chunkSize, this`lastChunk, this`ptr, this`nFree, this`Chunks, heap
      ensures Valid()
      ensures !ok ==> heap.blocks == old(heap.blocks) && Chunks == old(Chunks)
      ensures ok ==> nFree >= n && Chunks == [lastChunk] + old(Chunks)
      ensures ok ==> lastChunk !in old(heap.blocks)
      ensures ok ==> heap.blocks == old(heap.blocks)[lastChunk := heap.blocks[lastChunk]]
    {
      hide Align, Aligned, Apart, Chain, Inside, Live;
      AlignFacts(n);
      PtrAligned();
      AlignedSums(chunkSize, chunkSize);
      var size := DoubleUntil(chunkSize * 2, Align(n + CHUNK_HEADER));
      AlignedSums(size, CHUNK_HEADER);
      chunkSize := size;
      var p := heap.Malloc(size);
      if p == None {
        return false;
      }
      heap.Store(p.value, lastChunk);
      assert heap.words == old(heap.words)[p.value := lastChunk];
      AlignedSums(p.value, CHUNK_HEADER);
      ChainGrows(Chunks, lastChunk, old(heap.words), p.value);
      InsideGrows(Given, Chunks, old(heap.blocks), p.value, size);
      Chunks := [p.value] + Chunks;
      lastChunk := p.value;
      ptr := p.value + CHUNK_HEADER;
      nFree := size - CHUNK_HEADER;
      ok := true;
    }

    static method DoubleUntil(size0: nat, min: nat) returns (size: nat)
      requires size0 > 0 && Aligned(size0)
      ensures size >= size0 && size >= min && Aligned(size)
    {
      size := size0;
      while size < min
        invariant size >= size0 && Aligned(size)
        decreases min - size
      {
        AlignedSums(size, size);
        size := size * 2;
      }
    }

    // The next n bytes of the last chunk.
    method Carve(n: nat) returns (p: Option<nat>)
      requires Valid() && 0 < n <= nFree
      modifies this`ptr, this`nFree, this`Given
      ensures Valid() && p.Some?
      ensures Given == old(Given) + [Block(p.value, Align(n), lastChunk)]
    {
      hide Align, Aligned, Apart, Chain, Inside, Live;
      AlignFacts(n);
      p := Some(ptr);
      var size := Align(n);
      AlignedSums(ptr, size);
      AlignedSums(nFree, size);
      GivenGrows(Given, Chunks, lastChunk, heap.words, heap.blocks, heap.brk, ptr, size);
      Given := Given + [Block(ptr, size, lastChunk)];
      ptr := ptr + size;
      nFree := nFree - size;
    }

    // ch_arena_free: every chunk is freed once, the one that holds the arena last.
    method FreeAll()
      requires Valid()
      modifies heap
      ensures heap.Valid() && heap.blocks == old(heap.blocks) - Elems(old(Chunks))
    {
      hide Chain, Inside, Apart, Live, Elems;
      ghost var words, blocks := heap.words, heap.blocks;
      var chunk := lastChunk;
      ghost var i := 0;
      ChainStart(Chunks, lastChunk, words);
      while chunk != NULL
        invariant 0 <= i <= |Chunks| && heap.Valid()
        invariant chunk == if i < |Chunks| then Chunks[i] else NULL
        invariant heap.blocks == blocks - Elems(Chunks[..i]) && heap.words == words - Elems(Chunks[..i])
        modifies heap
        decreases |Chunks| - i
      {
        var del := chunk;
        ChainAt(Chunks, lastChunk, words, i);
        chunk := heap.words[del];
        heap.Free(del);
        i := i + 1;
      }
      assert Chunks[..i] == Chunks;
    }
  }

  ghost function Elems(s: seq<nat>): set<nat> {
    set c | c in s
  }

  lemma {:induction false} ChainStart(chunks: seq<nat>, last: nat, words: map<nat, nat>)
    requires Chain(chunks, last, words)
    ensures |chunks| > 0 && chunks[0] == last && Elems(chunks[..0]) == {}
    ensures forall i :: 0 <= i < |chunks| ==> chunks[i] != NULL
  {
  }

  // Chunk i is not one of the chunks before it, and links to the next one.
  lemma {:induction false} ChainAt(chunks: seq<nat>, last: nat, words: map<nat, nat>, i: nat)
    requires Chain(chunks, last, words) && i < |chunks|
    ensures chunks[i] in words && chunks[i] != NULL && chunks[i] in chunks
    ensures chunks[i] !in Elems(chunks[..i]) && Elems(chunks[..i + 1]) == Elems(chunks[..i]) + {chunks[i]}
    ensures words[chunks[i]] == if i + 1 < |chunks| then chunks[i + 1] else NULL
  {
  }

  lemma {:induction false} Started(at: nat, words: map<nat, nat>, blocks: map<nat, nat>)
    requires at in words && at != NULL && words[at] == NULL
    ensures Chain([at], at, words) && Inside([], [at], blocks) && Apart([])
  {
  }

  lemma {:induction false} InsideGrows(given: seq<Block>, chunks: seq<nat>, blocks: map<nat, nat>, at: nat, size: nat)
    requires |chunks| > 0 && Inside(given, chunks, blocks) && at !in blocks && chunks[|chunks| - 1] in blocks
    ensures Header([at] + chunks, at) == CHUNK_HEADER && ([at] + chunks)[|chunks|] == chunks[|chunks| - 1]
    ensures Inside(given, [at] + chunks, blocks[at := size])
    ensures forall i :: 0 <= i < |given| ==> given[i].chunk != at
  {
  }

  // The space behind ptr overlaps nothing that was given out before: blocks of the last
  // chunk end before it, and other chunks are other blocks of the heap.
  lemma {:induction false} GivenGrows(given: seq<Block>, chunks: seq<nat>, last: nat, words: map<nat, nat>,
        blocks: map<nat, nat>, brk: nat, ptr: nat, size: nat)
    requires Chain(chunks, last, words) && Inside(given, chunks, blocks) && Apart(given) && last in blocks
    requires Live(blocks, brk)
    requires last + Header(chunks, last) <= ptr && ptr + size <= last + blocks[last] && Aligned(ptr)
    requires forall i :: 0 <= i < |given| && given[i].chunk == last ==> given[i].addr + given[i].size <= ptr
    ensures Inside(given + [Block(ptr, size, last)], chunks, blocks) && Apart(given + [Block(ptr, size, last)])
  {
    assert chunks[0] == last;
    forall i | 0 <= i < |given|
      ensures Disjoint(given[i].addr, given[i].size, ptr, size)
    {
      var c := given[i].chunk;
      if c != last {
        assert Disjoint(c, blocks[c], last, blocks[last]);
      }
    }
  }

  // No block given out overlaps the fields of the arena itself.
  lemma {:induction false} OffArena(given: seq<Block>, chunks: seq<nat>, last: nat, words: map<nat, nat>,
        blocks: map<nat, nat>, brk: nat, i: nat)
    requires Chain(chunks, last, words) && Inside(given, chunks, blocks) && Live(blocks, brk) && i < |given|
    requires var first := chunks[|chunks| - 1]; first in blocks && blocks[first] >= ARENA_HEADER
    ensures Disjoint(given[i].addr, given[i].size, chunks[|chunks| - 1], ARENA_HEADER)
  {
    var c, first := given[i].chunk, chunks[|chunks| - 1];
    if c != first {
      assert Disjoint(c, blocks[c], first, blocks[first]);
    }
  }

  lemma {:induction false} ChainGrows(chunks: seq<nat>, last: nat, words: map<nat, nat>, at: nat)
    requires Chain(chunks, last, words) && at !in words && at != NULL
    ensures Chain([at] + chunks, at, words[at := last])
  {
    var t := [at] + chunks;
    forall i | 0 <= i < |t| - 1
      ensures words[at := last][t[i]] == t[i + 1]
    {
      if i > 0 {
        assert words[chunks[i - 1]] == chunks[i];
      }
    }
  }
}
