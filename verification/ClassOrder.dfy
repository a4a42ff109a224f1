// Restoring a class with its bases does not depend on the order of the records of each.
module ClassOrder {
  import opened Wrappers
  import opened Bytes
  import opened ByteReader
  import opened FieldReader
  import opened FieldOrder

  // What a save file holds of one class of a chain: the index of its name, and its records.
  datatype Block = Block(symbol: nat, recs: seq<Rec>)

  const INT32_MAX: nat := 0x7FFF_FFFF

  function Le32(x: nat): (s: seq<Byte>)
    ensures |s| == 4
  {
    [x % 0x100, x / 0x100 % 0x100, x / 0x1_0000 % 0x100, x / 0x100_0000 % 0x100]
  }

  predicate EncodableBlock(b: Block) {
    b.symbol <= INT16_MAX && |b.recs| <= INT32_MAX && forall i :: 0 <= i < |b.recs| ==> Encodable(b.recs[i])
  }

  function EncodeBlock(b: Block): (s: seq<Byte>)
    requires EncodableBlock(b)
  {
    Le16(4) + (Le16(b.symbol) + (Le32(|b.recs|) + EncodeRecs(b.recs)))
  }

  // The blocks of a class and its bases, the outermost base first.
  function EncodeBlocks(bs: seq<Block>): seq<Byte>
    requires forall i :: 0 <= i < |bs| ==> EncodableBlock(bs[i])
    decreases |bs|
  {
    if bs == [] then [] else EncodeBlocks(bs[..|bs| - 1]) + EncodeBlock(bs[|bs| - 1])
  }

  lemma {:induction false} PeekLe32(data: seq<Byte>, w: Window, x: nat)
    requires x <= INT32_MAX && Begins(data, w, Le32(x))
    ensures CouldSkip(w, 4) && Peek32(data, w) == x
  {
    var s := data[w.cur..w.cur + 4];
    assert data[w.cur] == s[0] && data[w.cur + 1] == s[1] && data[w.cur + 2] == s[2] && data[w.cur + 3] == s[3];
    Digits(x);
  }

  lemma {:induction false} Digits(x: nat)
    ensures x == x % 0x100 + 0x100 * (x / 0x100 % 0x100) + 0x1_0000 * (x / 0x1_0000 % 0x100)
      + 0x100_0000 * (x / 0x100_0000)
  {
    var y := x / 0x100;
    var z := y / 0x100;
    ShiftTwice(x);
    ShiftTwice(y);
    assert x == 0x100 * y + x % 0x100 && y == 0x100 * z + y % 0x100 && z == 0x100 * (z / 0x100) + z % 0x100;
    assert x / 0x1_0000 == z && x / 0x100_0000 == z / 0x100 by { ShiftThrice(x); }
  }

  lemma {:induction false} ShiftTwice(x: nat)
    ensures x / 0x1_0000 == x / 0x100 / 0x100
  {
  }

  lemma {:induction false} ShiftThrice(x: nat)
    ensures x / 0x100_0000 == x / 0x100 / 0x100 / 0x100
  {
    assert x / 0x1_0000 == x / 0x100 / 0x100;
    assert x / 0x100_0000 == x / 0x1_0000 / 0x100;
  }

  // ---------- one class ----------

  // A class whose records can come in any order.
  ghost predicate Orderless(dm: Datamap) {
    Uniform(dm) && NoOverlap(dm)
  }

  // Valid records under the expected name.
  ghost predicate ValidBlock(symbols: seq<Name>, expected: Name, dm: Datamap, b: Block) {
    && EncodableBlock(b) && b.symbol < |symbols| && Same(symbols[b.symbol], expected)
    && ValidRecs(symbols, dm, b.recs)
  }

  // The block of a class is restored, header and records.
  lemma {:induction false} BlockApplied(env: Env, expected: Name, dm: Datamap, b: Block, w: Window,
        mem: Memory, at: nat)
    requires Uniform(dm) && EncodableBlock(b) && b.symbol < |env.symbols|
    requires Same(env.symbols[b.symbol], expected)
    requires forall i :: 0 <= i < |b.recs| ==> ValidRec(env.symbols, dm, b.recs[i])
    requires Begins(env.data, w, EncodeBlock(b))
    ensures Inside(env.data, w)
    ensures RestoreFields(env, expected, dm, w, mem, at)
      == Outcome(NONE, w.(cur := w.cur + |EncodeBlock(b)|), AppliedAll(env.symbols, dm, mem, at, b.recs))
  {
    hide EncodeRecs, ValidRec, Uniform, AppliedAll, RestoreRecords, RestoreFields, Same, Le16, Le32, Begins;
    HeaderRead(env, expected, dm, b.symbol, |b.recs|, EncodeRecs(b.recs), w, mem, at);
    RecordsApplied(env, dm, b.recs, -1, w.(cur := w.cur + 8), mem, at);
  }

  // The header of a class: a marker, its name, and how many records follow.
  lemma {:induction false} HeaderRead(env: Env, expected: Name, dm: Datamap, symbol: nat, n: nat, s: seq<Byte>,
        w: Window, mem: Memory, at: nat)
    requires symbol <= INT16_MAX && n <= INT32_MAX && symbol < |env.symbols| && Same(env.symbols[symbol], expected)
    requires Begins(env.data, w, Le16(4) + (Le16(symbol) + (Le32(n) + s)))
    ensures Inside(env.data, w) && Begins(env.data, w.(cur := w.cur + 8), s)
    ensures RestoreFields(env, expected, dm, w, mem, at)
      == RestoreRecords(env, dm, n, -1, w.(cur := w.cur + 8), mem, at)
  {
    hide Peek16, Peek32, Le16, Le32, RestoreRecords, Same;
    BeginsSplit(env.data, w, Le16(4), Le16(symbol) + (Le32(n) + s));
    PeekLe16(env.data, w, 4);
    var w1 := w.(cur := w.cur + 2);
    BeginsSplit(env.data, w1, Le16(symbol), Le32(n) + s);
    PeekLe16(env.data, w1, symbol);
    var w2 := w1.(cur := w1.cur + 2);
    BeginsSplit(env.data, w2, Le32(n), s);
    PeekLe32(env.data, w2, n);
  }

  // ---------- a class and its bases ----------

  ghost predicate OrderlessChain(dm: Datamap)
    decreases dm
  {
    Orderless(dm) && (dm.base.Some? ==> OrderlessChain(dm.base.value))
  }

  // One valid block for each class of the chain.
  ghost predicate ValidBlocks(symbols: seq<Name>, dm: Datamap, bs: seq<Block>)
    decreases dm
  {
    && bs != [] && ValidBlock(symbols, dm.name, dm, bs[|bs| - 1])
    && if dm.base.Some? then ValidBlocks(symbols, dm.base.value, bs[..|bs| - 1]) else |bs| == 1
  }

  // The same records for each class, in any order. Names may differ in case.
  ghost predicate Permuted(symbols: seq<Name>, bs: seq<Block>, bs': seq<Block>) {
    && |bs'| == |bs|
    && forall i :: 0 <= i < |bs| ==>
      && EncodableBlock(bs'[i]) && multiset(bs[i].recs) == multiset(bs'[i].recs)
      && bs[i].symbol < |symbols| && bs'[i].symbol < |symbols| && Same(symbols[bs[i].symbol], symbols[bs'[i].symbol])
  }

  lemma {:induction false} ValidEncodable(symbols: seq<Name>, dm: Datamap, bs: seq<Block>)
    requires ValidBlocks(symbols, dm, bs)
    ensures forall i :: 0 <= i < |bs| ==> EncodableBlock(bs[i])
    decreases dm
  {
    hide EncodableBlock;
    if dm.base.Some? {
      ValidEncodable(symbols, dm.base.value, bs[..|bs| - 1]);
    }
  }

  // Permuted records are restored to the same memory, and as many bytes are read.
  lemma {:induction false} PermutedBlock(env: Env, env': Env, dm: Datamap, b: Block, b': Block, w: Window, w': Window,
        mem: Memory, at: nat)
    requires Orderless(dm) && env'.symbols == env.symbols && ValidBlock(env.symbols, dm.name, dm, b)
    requires EncodableBlock(b') && b'.symbol < |env.symbols| && Same(env.symbols[b.symbol], env.symbols[b'.symbol])
    requires multiset(b.recs) == multiset(b'.recs)
    requires Begins(env.data, w, EncodeBlock(b)) && Begins(env'.data, w', EncodeBlock(b'))
    ensures Inside(env.data, w) && Inside(env'.data, w')
    ensures var o, o' := RestoreFields(env, dm.name, dm, w, mem, at), RestoreFields(env', dm.name, dm, w', mem, at);
      && o.err.NONE? && o'.err.NONE? && o.mem == o'.mem
      && o.w == w.(cur := w.cur + |EncodeBlock(b)|) && o'.w == w'.(cur := w'.cur + |EncodeBlock(b')|)
  {
    hide RestoreFields, EncodeBlock, Begins, ValidRec, Uniform, NoOverlap, AppliedAll;
    ValidPermuted(env.symbols, dm, b.recs, b'.recs);
    BlockApplied(env, dm.name, dm, b, w, mem, at);
    BlockApplied(env', dm.name, dm, b', w', mem, at);
    PermutedApplied(env.symbols, dm, mem, at, b.recs, b'.recs);
  }

  // Two save files with the same valid records for a class and each of its bases, in any
  // orders, both restore, and restore the same object.
  lemma {:induction false} ClassOrderDoesNotMatter(env: Env, env': Env, dm: Datamap, bs: seq<Block>, bs': seq<Block>,
        w: Window, w': Window, mem: Memory, at: nat)
    requires OrderlessChain(dm) && env'.symbols == env.symbols
    requires ValidBlocks(env.symbols, dm, bs) && Permuted(env.symbols, bs, bs')
    requires (forall i :: 0 <= i < |bs| ==> EncodableBlock(bs[i])) && Begins(env.data, w, EncodeBlocks(bs))
    requires (forall i :: 0 <= i < |bs'| ==> EncodableBlock(bs'[i])) && Begins(env'.data, w', EncodeBlocks(bs'))
    ensures Inside(env.data, w) && Inside(env'.data, w')
    ensures var o, o' := RestoreRecursive(env, dm, w, mem, at), RestoreRecursive(env', dm, w', mem, at);
      && o.err.NONE? && o'.err.NONE? && o.mem == o'.mem
      && o.w == w.(cur := w.cur + |EncodeBlocks(bs)|) && o'.w == w'.(cur := w'.cur + |EncodeBlocks(bs')|)
    decreases dm
  {
    hide RestoreFields, RestoreRecursive, EncodeBlock, EncodeBlocks, Begins, Orderless, ValidBlock, EncodableBlock,
      Same;
    var n := |bs| - 1;
    EncodedLast(bs);
    EncodedLast(bs');
    var a, a' := EncodeBlocks(bs[..n]), EncodeBlocks(bs'[..n]);
    BeginsSplit(env.data, w, a, EncodeBlock(bs[n]));
    BeginsSplit(env'.data, w', a', EncodeBlock(bs'[n]));
    BeginsInside(env.data, w, a);
    BeginsInside(env'.data, w', a');
    var o, o' := Outcome(NONE, w, mem), Outcome(NONE, w', mem);
    if dm.base.Some? {
      ClassOrderDoesNotMatter(env, env', dm.base.value, bs[..n], bs'[..n], w, w', mem, at);
      o, o' := RestoreRecursive(env, dm.base.value, w, mem, at), RestoreRecursive(env', dm.base.value, w', mem, at);
    } else {
      assert bs[..n] == [] && bs'[..n] == [];
      EncodedNone();
    }
    PermutedBlock(env, env', dm, bs[n], bs'[n], o.w, o'.w, o.mem, at);
    OwnFields(env, dm, w, mem, at);
    OwnFields(env', dm, w', mem, at);
  }

  lemma {:induction false} EncodedLast(bs: seq<Block>)
    requires bs != [] && forall i :: 0 <= i < |bs| ==> EncodableBlock(bs[i])
    ensures EncodeBlocks(bs) == EncodeBlocks(bs[..|bs| - 1]) + EncodeBlock(bs[|bs| - 1])
  {
    hide EncodableBlock, EncodeBlock;
  }

  lemma {:induction false} EncodedNone()
    ensures EncodeBlocks([]) == []
  {
  }

  lemma {:induction false} OwnFields(env: Env, dm: Datamap, w: Window, mem: Memory, at: nat)
    requires Inside(env.data, w)
    ensures var o := if dm.base.Some? then RestoreRecursive(env, dm.base.value, w, mem, at) else Outcome(NONE, w, mem);
      o.err.NONE? ==> RestoreRecursive(env, dm, w, mem, at) == RestoreFields(env, dm.name, dm, o.w, o.mem, at)
  {
    hide RestoreFields;
  }
}
