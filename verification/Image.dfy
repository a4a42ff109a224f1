// The file that a collection of datamaps is written to: a header, datamaps, type descriptions,
// strings and linked names, one behind the other, laid out as the structs of
// chicago_parse_lib/src/SDK/datamap.h are in memory.
module Image {
  import opened Bytes
  import opened Bits

  // CH_REL_OFF_NULL
  const NULL: nat := SIZE_RANGE - 1

  // A byte of the image: a character, the first byte of a word or of the three small members
  // of a type description, or another byte of one of these.
  datatype Cell = Char(b: Byte) | Word(x: nat) | Small(ftype: nat, flags: nat, nElems: nat) | Tail

  datatype Head = Head(version: nat, nDms: nat, nLnks: nat, dms: nat, tds: nat, strs: nat, lnks: nat)

  datatype Dm = Dm(className: nat, baseMap: nat, fields: nat, nFields: nat, moduleName: nat, chSize: nat)

  datatype Td = Td(
    ftype: nat,
    flags: nat,
    nElems: nat,
    name: nat,
    external: nat,
    gameOffset: nat,
    chOffset: nat,
    totalSize: nat,
    ops: nat,
    embedded: nat)

  datatype Lnk = Lnk(name: nat, dm: nat)

  // What is in an image.
  datatype Tables = Tables(
    magic: seq<Byte>,
    head: Head,
    lookup: nat,
    dms: seq<Dm>,
    tds: seq<Td>,
    strs: seq<Byte>,
    lnks: seq<Lnk>)

  const DMS: nat := 8 + 8 * PTR
  const DM_SIZE: nat := 6 * PTR
  const TD_SIZE: nat := 8 + 7 * PTR
  const LNK_SIZE: nat := 2 * PTR

  lemma {:induction false} StructSizes()
    ensures DM_SIZE == PTR * 6 && TD_SIZE == 8 + PTR * 7 && LNK_SIZE == PTR * 2
    ensures DMS >= 40 && DM_SIZE >= 24 && TD_SIZE >= 36 && LNK_SIZE >= 8
  {
  }

  // ---------- cells ----------

  function Tails(n: nat): (cells: seq<Cell>)
    ensures |cells| == n && forall k :: 0 <= k < n ==> cells[k] == Tail
  {
    seq(n, k requires 0 <= k < n => Tail)
  }

  function Words(ws: seq<nat>): (cells: seq<Cell>)
    ensures |cells| == PTR * |ws|
  {
    if ws == [] then [] else [Word(ws[0])] + Tails(PTR - 1) + Words(ws[1..])
  }

  lemma {:induction false} WordIn(ws: seq<nat>, f: nat)
    requires f < |ws|
    ensures Words(ws)[PTR * f] == Word(ws[f])
  {
    if f > 0 {
      WordIn(ws[1..], f - 1);
      assert Words(ws)[PTR * f] == Words(ws[1..])[PTR * (f - 1)];
    }
  }

  lemma {:induction false} WordSet(ws: seq<nat>, f: nat, x: nat)
    requires f < |ws|
    ensures Words(ws[f := x]) == Words(ws)[PTR * f := Word(x)]
  {
    if f == 0 {
      assert ws[0 := x][1..] == ws[1..];
    } else {
      WordSet(ws[1..], f - 1, x);
      assert ws[f := x][1..] == ws[1..][f - 1 := x];
      var rest := Words(ws[1..]);
      assert ([Word(ws[0])] + Tails(PTR - 1) + rest)[PTR * f := Word(x)]
        == [Word(ws[0])] + Tails(PTR - 1) + rest[PTR * (f - 1) := Word(x)];
    }
  }

  function Chars(s: seq<Byte>): (cells: seq<Cell>)
    ensures |cells| == |s| && forall k :: 0 <= k < |s| ==> cells[k] == Char(s[k])
  {
    seq(|s|, k requires 0 <= k < |s| => Char(s[k]))
  }

  // ---------- rows ----------

  function Rows(rows: seq<seq<Cell>>): seq<Cell> {
    if rows == [] then [] else rows[0] + Rows(rows[1..])
  }

  ghost predicate Wide(rows: seq<seq<Cell>>, w: nat) {
    forall i :: 0 <= i < |rows| ==> |rows[i]| == w
  }

  lemma {:induction false} Times(w: nat, i: nat)
    requires i > 0
    ensures w * i == w + w * (i - 1)
  {
  }

  lemma {:induction false} RowsLength(rows: seq<seq<Cell>>, w: nat)
    requires Wide(rows, w)
    ensures |Rows(rows)| == w * |rows|
  {
    if rows != [] {
      RowsLength(rows[1..], w);
      Times(w, |rows|);
    }
  }

  lemma {:induction false} RowIn(rows: seq<seq<Cell>>, w: nat, i: nat)
    requires Wide(rows, w) && i < |rows|
    ensures 0 <= w * i <= w * i + w <= |Rows(rows)|
    ensures Rows(rows)[w * i..w * i + w] == rows[i]
    decreases i
  {
    if i == 0 {
      assert w * 0 == 0;
    } else {
      RowIn(rows[1..], w, i - 1);
      Times(w, i);
      var rest := Rows(rows[1..]);
      var at := w * (i - 1);
      assert (rows[0] + rest)[w + at..w + at + w] == rest[at..at + w];
    }
  }

  lemma {:induction false} RowSet(rows: seq<seq<Cell>>, w: nat, i: nat, k: nat, c: Cell)
    requires Wide(rows, w) && i < |rows| && k < w
    ensures 0 <= w * i + k < |Rows(rows)|
    ensures Rows(rows[i := rows[i][k := c]]) == Rows(rows)[w * i + k := c]
    decreases i
  {
    RowIn(rows, w, i);
    var row := rows[i][k := c];
    if i == 0 {
      assert w * 0 == 0;
      assert rows[0 := row][1..] == rows[1..];
      assert (rows[0] + Rows(rows[1..]))[k := c] == row + Rows(rows[1..]);
    } else {
      RowSet(rows[1..], w, i - 1, k, c);
      Times(w, i);
      assert rows[i := row][1..] == rows[1..][i - 1 := row];
      var rest := Rows(rows[1..]);
      var at := w * (i - 1) + k;
      assert (rows[0] + rest)[w + at := c] == rows[0] + rest[at := c];
    }
  }

  // ---------- the structs ----------

  function HeadWords(h: Head): (ws: seq<nat>)
    ensures |ws| == 7
  {
    [h.version, h.nDms, h.nLnks, h.dms, h.tds, h.strs, h.lnks]
  }

  function DmWords(d: Dm): (ws: seq<nat>)
    ensures |ws| == 6
  {
    [d.className, d.baseMap, d.fields, d.nFields, d.moduleName, d.chSize]
  }

  // The words behind the small members of a type description.
  function TdWords(t: Td): (ws: seq<nat>)
    ensures |ws| == 7
  {
    [t.name, t.external, t.gameOffset, t.chOffset, t.totalSize, t.ops, t.embedded]
  }

  function LnkWords(l: Lnk): (ws: seq<nat>)
    ensures |ws| == 2
  {
    [l.name, l.dm]
  }

  function DmCells(d: Dm): (cells: seq<Cell>)
    ensures |cells| == DM_SIZE
  {
    Words(DmWords(d))
  }

  function TdCells(t: Td): (cells: seq<Cell>)
    ensures |cells| == TD_SIZE
  {
    [Small(t.ftype, t.flags, t.nElems)] + Tails(7) + Words(TdWords(t))
  }

  function LnkCells(l: Lnk): (cells: seq<Cell>)
    ensures |cells| == LNK_SIZE
  {
    Words(LnkWords(l))
  }

  function DmRows(dms: seq<Dm>): (rows: seq<seq<Cell>>)
    ensures |rows| == |dms| && Wide(rows, DM_SIZE) && forall i :: 0 <= i < |dms| ==> rows[i] == DmCells(dms[i])
  {
    seq(|dms|, i requires 0 <= i < |dms| => DmCells(dms[i]))
  }

  function TdRows(tds: seq<Td>): (rows: seq<seq<Cell>>)
    ensures |rows| == |tds| && Wide(rows, TD_SIZE) && forall i :: 0 <= i < |tds| ==> rows[i] == TdCells(tds[i])
  {
    seq(|tds|, i requires 0 <= i < |tds| => TdCells(tds[i]))
  }

  function LnkRows(lnks: seq<Lnk>): (rows: seq<seq<Cell>>)
    ensures |rows| == |lnks| && Wide(rows, LNK_SIZE) && forall i :: 0 <= i < |lnks| ==> rows[i] == LnkCells(lnks[i])
  {
    seq(|lnks|, i requires 0 <= i < |lnks| => LnkCells(lnks[i]))
  }

  // ---------- sections ----------

  function TdsOff(t: Tables): nat {
    DMS + DM_SIZE * |t.dms|
  }

  function StrsOff(t: Tables): nat {
    TdsOff(t) + TD_SIZE * |t.tds|
  }

  function LnksOff(t: Tables): nat {
    StrsOff(t) + |t.strs|
  }

  function Length(t: Tables): nat {
    LnksOff(t) + LNK_SIZE * |t.lnks|
  }

  function DmAddr(i: nat): nat {
    DMS + DM_SIZE * i
  }

  lemma {:induction false} DmAddrs(i: nat, j: nat)
    requires i < j
    ensures DmAddr(i) + DM_SIZE == DmAddr(i + 1) <= DmAddr(j)
  {
    hide DM_SIZE, DMS;
    Times(DM_SIZE, i + 1);
    MulMono(i + 1, j, DM_SIZE);
  }

  // An image is longer than any of its tables has entries.
  lemma {:induction false} EntriesFit(t: Tables)
    ensures |t.dms| < Length(t) && |t.tds| < Length(t) && |t.strs| < Length(t) && |t.lnks| < Length(t)
  {
    hide DM_SIZE, TD_SIZE, LNK_SIZE, DMS;
    StructSizes();
    MulMono(1, DM_SIZE, |t.dms|);
    MulMono(1, TD_SIZE, |t.tds|);
    MulMono(1, LNK_SIZE, |t.lnks|);
  }

  lemma {:induction false} InOrderOf(t: Tables)
    ensures 0 < DMS <= TdsOff(t) <= StrsOff(t) <= LnksOff(t) <= Length(t)
  {
    hide DM_SIZE, TD_SIZE, LNK_SIZE, DMS;
    StructSizes();
    MulMono(0, |t.dms|, DM_SIZE);
    MulMono(0, |t.tds|, TD_SIZE);
    MulMono(0, |t.lnks|, LNK_SIZE);
  }

  lemma {:induction false} Inside(w: nat, x: nat, n: nat)
    requires x < n
    ensures 0 <= w * x && w * x + w <= w * n
  {
    MulMono(x + 1, n, w);
  }

  // Every entry of a table is in the image.
  lemma {:induction false} EntryInside(t: Tables, x: nat)
    ensures x < |t.dms| ==> 0 < DMS + DM_SIZE * x < Length(t)
    ensures x < |t.tds| ==> 0 < TdsOff(t) + TD_SIZE * x < Length(t)
    ensures x < |t.strs| ==> 0 < StrsOff(t) + x < Length(t)
  {
    hide DM_SIZE, TD_SIZE, LNK_SIZE, DMS, Length, StrsOff;
    StructSizes();
    InOrderOf(t);
    if x < |t.dms| {
      Inside(DM_SIZE, x, |t.dms|);
    }
    TdInside(t, x);
    StrInside(t, x);
  }

  lemma {:induction false} TdInside(t: Tables, x: nat)
    ensures x < |t.tds| ==> 0 < TdsOff(t) + TD_SIZE * x < Length(t)
  {
    hide DM_SIZE, TD_SIZE, LNK_SIZE, DMS, Length, TdsOff;
    StructSizes();
    InOrderOf(t);
    if x < |t.tds| {
      Inside(TD_SIZE, x, |t.tds|);
    }
  }

  lemma {:induction false} StrInside(t: Tables, x: nat)
    ensures x < |t.strs| ==> 0 < StrsOff(t) + x < Length(t)
  {
    hide DM_SIZE, TD_SIZE, LNK_SIZE, DMS, Length, TdsOff, StrsOff;
    InOrderOf(t);
  }

  function TdAddr(t: Tables, k: nat): nat {
    TdsOff(t) + TD_SIZE * k
  }

  lemma {:induction false} TdAddrs(t: Tables, k: nat, j: nat)
    ensures TdAddr(t, k + j) == TdsOff(t) + TD_SIZE * k + TD_SIZE * j
  {
    hide TdsOff, TD_SIZE;
  }

  function LnkAddr(t: Tables, k: nat): nat {
    LnksOff(t) + LNK_SIZE * k
  }

  // The header and the pointer to the lookup table, which is NULL in a file.
  function Front(t: Tables): (cells: seq<Cell>)
    ensures |cells| == |t.magic| + 8 * PTR
  {
    Chars(t.magic) + Words(HeadWords(t.head)) + Words([t.lookup])
  }

  function Encode(t: Tables): seq<Cell> {
    Front(t) + Rows(DmRows(t.dms)) + Rows(TdRows(t.tds)) + Chars(t.strs) + Rows(LnkRows(t.lnks))
  }

  // The sections fill the image, each starting where the one before it ends.
  lemma {:induction false} Sections(t: Tables)
    requires |t.magic| == 8
    ensures |Encode(t)| == Length(t)
    ensures Encode(t)[..DMS] == Front(t)
    ensures Encode(t)[DMS..TdsOff(t)] == Rows(DmRows(t.dms))
    ensures Encode(t)[TdsOff(t)..StrsOff(t)] == Rows(TdRows(t.tds))
    ensures Encode(t)[StrsOff(t)..LnksOff(t)] == Chars(t.strs)
    ensures Encode(t)[LnksOff(t)..] == Rows(LnkRows(t.lnks))
  {
    hide Front, Rows, DmRows, TdRows, LnkRows, Chars;
    RowsLength(DmRows(t.dms), DM_SIZE);
    RowsLength(TdRows(t.tds), TD_SIZE);
    RowsLength(LnkRows(t.lnks), LNK_SIZE);
    FivePieces(Front(t), Rows(DmRows(t.dms)), Rows(TdRows(t.tds)), Chars(t.strs), Rows(LnkRows(t.lnks)));
  }

  lemma {:induction false} FivePieces(a: seq<Cell>, b: seq<Cell>, c: seq<Cell>, d: seq<Cell>, e: seq<Cell>)
    ensures var s := a + b + c + d + e; var i, j, k, l := |a|, |a| + |b|, |a| + |b| + |c|, |a| + |b| + |c| + |d|;
      |s| == l + |e| && s[..i] == a && s[i..j] == b && s[j..k] == c && s[k..l] == d && s[l..] == e
  {
    var s := a + b + c + d + e;
    assert s[..|a|] == a;
    assert s[|a|..|a| + |b|] == b;
    assert s[|a| + |b|..|a| + |b| + |c|] == c;
    assert s[|a| + |b| + |c|..|a| + |b| + |c| + |d|] == d;
  }

  // A cell in the middle of what a part of a sequence is.
  lemma {:induction false} SliceAt(s: seq<Cell>, i: nat, j: nat, part: seq<Cell>, k: nat)
    requires i <= j <= |s| && s[i..j] == part && k < |part|
    ensures i + k < |s| && s[i + k] == part[k]
  {
  }

  lemma {:induction false} SliceOf(s: seq<Cell>, i: nat, j: nat, part: seq<Cell>, k: nat, l: nat)
    requires i <= j <= |s| && s[i..j] == part && k <= l <= |part|
    ensures i + l <= |s| && s[i + k..i + l] == part[k..l]
  {
    forall m | 0 <= m < l - k
      ensures part[k..l][m] == s[i + k..i + l][m]
    {
      assert part[k + m] == s[i + (k + m)];
    }
  }

  lemma {:induction false} DmAt(t: Tables, i: nat)
    requires |t.magic| == 8 && i < |t.dms|
    ensures DmAddr(i) + DM_SIZE <= |Encode(t)| == Length(t)
    ensures Encode(t)[DmAddr(i)..DmAddr(i) + DM_SIZE] == DmCells(t.dms[i])
  {
    hide Encode, Rows, DmCells, DmRows;
    Sections(t);
    RowIn(DmRows(t.dms), DM_SIZE, i);
    SliceOf(Encode(t), DMS, TdsOff(t), Rows(DmRows(t.dms)), DM_SIZE * i, DM_SIZE * i + DM_SIZE);
  }

  lemma {:induction false} TdAt(t: Tables, k: nat)
    requires |t.magic| == 8 && k < |t.tds|
    ensures TdAddr(t, k) + TD_SIZE <= |Encode(t)| == Length(t)
    ensures Encode(t)[TdAddr(t, k)..TdAddr(t, k) + TD_SIZE] == TdCells(t.tds[k])
  {
    hide Encode, Rows, TdCells, TdRows;
    Sections(t);
    RowIn(TdRows(t.tds), TD_SIZE, k);
    SliceOf(Encode(t), TdsOff(t), StrsOff(t), Rows(TdRows(t.tds)), TD_SIZE * k, TD_SIZE * k + TD_SIZE);
  }

  lemma {:induction false} LnkAt(t: Tables, k: nat)
    requires |t.magic| == 8 && k < |t.lnks|
    ensures LnkAddr(t, k) + LNK_SIZE <= |Encode(t)| == Length(t)
    ensures Encode(t)[LnkAddr(t, k)..LnkAddr(t, k) + LNK_SIZE] == LnkCells(t.lnks[k])
  {
    hide Encode, Rows, LnkCells, LnkRows;
    Sections(t);
    RowIn(LnkRows(t.lnks), LNK_SIZE, k);
    SliceOf(Encode(t), LnksOff(t), Length(t), Rows(LnkRows(t.lnks)), LNK_SIZE * k, LNK_SIZE * k + LNK_SIZE);
  }

  // ---------- words ----------

  lemma {:induction false} DmWord(t: Tables, i: nat, f: nat)
    requires |t.magic| == 8 && i < |t.dms| && f < 6
    ensures DmAddr(i) + PTR * f < |Encode(t)| == Length(t)
    ensures Encode(t)[DmAddr(i) + PTR * f] == Word(DmWords(t.dms[i])[f])
  {
    hide Encode, Words, DmWords;
    DmAt(t, i);
    WordIn(DmWords(t.dms[i]), f);
    SliceAt(Encode(t), DmAddr(i), DmAddr(i) + DM_SIZE, DmCells(t.dms[i]), PTR * f);
  }

  lemma {:induction false} TdWord(t: Tables, k: nat, f: nat)
    requires |t.magic| == 8 && k < |t.tds| && f < 7
    ensures TdAddr(t, k) + 8 + PTR * f < |Encode(t)| == Length(t)
    ensures Encode(t)[TdAddr(t, k)] == Small(t.tds[k].ftype, t.tds[k].flags, t.tds[k].nElems)
    ensures Encode(t)[TdAddr(t, k) + 8 + PTR * f] == Word(TdWords(t.tds[k])[f])
  {
    hide Encode, Words, TdWords;
    TdAt(t, k);
    WordIn(TdWords(t.tds[k]), f);
    SliceAt(Encode(t), TdAddr(t, k), TdAddr(t, k) + TD_SIZE, TdCells(t.tds[k]), 0);
    SliceAt(Encode(t), TdAddr(t, k), TdAddr(t, k) + TD_SIZE, TdCells(t.tds[k]), 8 + PTR * f);
  }

  lemma {:induction false} LnkWord(t: Tables, k: nat, f: nat)
    requires |t.magic| == 8 && k < |t.lnks| && f < 2
    ensures LnkAddr(t, k) + PTR * f < |Encode(t)| == Length(t)
    ensures Encode(t)[LnkAddr(t, k) + PTR * f] == Word(LnkWords(t.lnks[k])[f])
  {
    hide Encode, Words, LnkWords;
    LnkAt(t, k);
    WordIn(LnkWords(t.lnks[k]), f);
    SliceAt(Encode(t), LnkAddr(t, k), LnkAddr(t, k) + LNK_SIZE, LnkCells(t.lnks[k]), PTR * f);
  }

  lemma {:induction false} FrontWord(t: Tables, f: nat)
    requires |t.magic| == 8 && f < 7
    ensures |Front(t)| == DMS && Front(t)[..8] == Chars(t.magic) && Front(t)[0..8] == Chars(t.magic)
    ensures 8 + PTR * f < |Front(t)| && Front(t)[8 + PTR * f] == Word(HeadWords(t.head)[f])
  {
    hide Words, HeadWords, Chars;
    var ws := HeadWords(t.head);
    WordIn(ws, f);
    MulMono(f + 1, 7, PTR);
    FrontCell(Chars(t.magic), Words(ws), Words([t.lookup]), PTR * f);
  }

  lemma {:induction false} FrontCell(a: seq<Cell>, b: seq<Cell>, c: seq<Cell>, k: nat)
    requires k < |b|
    ensures (a + b + c)[|a| + k] == b[k] && (a + b + c)[..|a|] == a && (a + b + c)[0..|a|] == a
  {
  }

  lemma {:induction false} HeadWord(t: Tables, f: nat)
    requires |t.magic| == 8 && f < 7
    ensures |Encode(t)| == Length(t) && 8 + PTR * f < Length(t) && Encode(t)[..8] == Chars(t.magic)
    ensures Encode(t)[8 + PTR * f] == Word(HeadWords(t.head)[f])
  {
    hide Encode, Words, HeadWords, Chars, DMS, Front, Length, LnksOff, StrsOff, TdsOff;
    Sections(t);
    InOrderOf(t);
    FrontWord(t, f);
    SliceOf(Encode(t), 0, DMS, Front(t), 0, 8);
    assert Encode(t)[0..DMS] == Encode(t)[..DMS];
    SliceAt(Encode(t), 0, DMS, Front(t), 8 + PTR * f);
  }

  // ---------- changing a word ----------

  lemma {:induction false} SetIn(a: seq<Cell>, b: seq<Cell>, b': seq<Cell>, c: seq<Cell>, k: nat, x: Cell)
    requires k < |b| && b' == b[k := x]
    ensures a + b' + c == (a + b + c)[|a| + k := x]
  {
  }

  lemma {:induction false} SetDm(t: Tables, i: nat, d: Dm, f: nat)
    requires |t.magic| == 8 && i < |t.dms| && f < 6 && DmWords(d) == DmWords(t.dms[i])[f := DmWords(d)[f]]
    ensures DmAddr(i) + PTR * f < |Encode(t)|
    ensures Encode(t.(dms := t.dms[i := d])) == Encode(t)[DmAddr(i) + PTR * f := Word(DmWords(d)[f])]
  {
    hide Words, DmWords, Rows, Front, DmRows, TdRows, LnkRows, Chars;
    var x := DmWords(d)[f];
    WordSet(DmWords(t.dms[i]), f, x);
    RowSet(DmRows(t.dms), DM_SIZE, i, PTR * f, Word(x));
    assert DmRows(t.dms[i := d]) == DmRows(t.dms)[i := DmCells(d)];
    var t' := t.(dms := t.dms[i := d]);
    var rest := Rows(TdRows(t.tds)) + Chars(t.strs) + Rows(LnkRows(t.lnks));
    SetIn(Front(t), Rows(DmRows(t.dms)), Rows(DmRows(t'.dms)), rest, DM_SIZE * i + PTR * f, Word(x));
    SameFront(t, t');
    assert Encode(t) == Front(t) + Rows(DmRows(t.dms)) + rest;
    assert Encode(t') == Front(t) + Rows(DmRows(t'.dms)) + rest;
  }

  lemma {:induction false} SetTd(t: Tables, k: nat, d: Td, f: nat)
    requires |t.magic| == 8 && k < |t.tds| && f < 7 && TdWords(d) == TdWords(t.tds[k])[f := TdWords(d)[f]]
    requires d.ftype == t.tds[k].ftype && d.flags == t.tds[k].flags && d.nElems == t.tds[k].nElems
    ensures TdAddr(t, k) + 8 + PTR * f < |Encode(t)|
    ensures Encode(t.(tds := t.tds[k := d])) == Encode(t)[TdAddr(t, k) + 8 + PTR * f := Word(TdWords(d)[f])]
  {
    hide Words, TdWords, Rows, Front, DmRows, TdRows, LnkRows, Chars, Tails;
    var x := TdWords(d)[f];
    var o := t.tds[k];
    WordSet(TdWords(o), f, x);
    SetIn([Small(o.ftype, o.flags, o.nElems)] + Tails(7), Words(TdWords(o)), Words(TdWords(d)), [], PTR * f, Word(x));
    assert TdCells(d) == TdCells(o)[8 + PTR * f := Word(x)];
    RowSet(TdRows(t.tds), TD_SIZE, k, 8 + PTR * f, Word(x));
    assert TdRows(t.tds[k := d]) == TdRows(t.tds)[k := TdCells(d)];
    var t' := t.(tds := t.tds[k := d]);
    var before := Front(t) + Rows(DmRows(t.dms));
    var rest := Chars(t.strs) + Rows(LnkRows(t.lnks));
    SetIn(before, Rows(TdRows(t.tds)), Rows(TdRows(t'.tds)), rest, TD_SIZE * k + 8 + PTR * f, Word(x));
    SameFront(t, t');
    RowsLength(DmRows(t.dms), DM_SIZE);
    assert Encode(t) == before + Rows(TdRows(t.tds)) + rest;
    assert Encode(t') == before + Rows(TdRows(t'.tds)) + rest;
  }

  lemma {:induction false} SetLnk(t: Tables, k: nat, l: Lnk, f: nat)
    requires |t.magic| == 8 && k < |t.lnks| && f < 2 && LnkWords(l) == LnkWords(t.lnks[k])[f := LnkWords(l)[f]]
    ensures LnkAddr(t, k) + PTR * f < |Encode(t)|
    ensures Encode(t.(lnks := t.lnks[k := l])) == Encode(t)[LnkAddr(t, k) + PTR * f := Word(LnkWords(l)[f])]
  {
    hide Words, LnkWords, Rows, Front, DmRows, TdRows, LnkRows, Chars;
    var x := LnkWords(l)[f];
    WordSet(LnkWords(t.lnks[k]), f, x);
    RowSet(LnkRows(t.lnks), LNK_SIZE, k, PTR * f, Word(x));
    assert LnkRows(t.lnks[k := l]) == LnkRows(t.lnks)[k := LnkCells(l)];
    var t' := t.(lnks := t.lnks[k := l]);
    var before := Front(t) + Rows(DmRows(t.dms)) + Rows(TdRows(t.tds)) + Chars(t.strs);
    SetIn(before, Rows(LnkRows(t.lnks)), Rows(LnkRows(t'.lnks)), [], LNK_SIZE * k + PTR * f, Word(x));
    SameFront(t, t');
    RowsLength(DmRows(t.dms), DM_SIZE);
    RowsLength(TdRows(t.tds), TD_SIZE);
    assert before + Rows(LnkRows(t.lnks)) + [] == Encode(t);
    assert before + Rows(LnkRows(t'.lnks)) + [] == Encode(t');
  }

  lemma {:induction false} SetHead(t: Tables, h: Head, f: nat)
    requires |t.magic| == 8 && f < 7 && HeadWords(h) == HeadWords(t.head)[f := HeadWords(h)[f]]
    ensures 8 + PTR * f < |Encode(t)|
    ensures Encode(t.(head := h)) == Encode(t)[8 + PTR * f := Word(HeadWords(h)[f])]
  {
    hide Words, HeadWords, Rows, DmRows, TdRows, LnkRows, Chars;
    var x := HeadWords(h)[f];
    WordSet(HeadWords(t.head), f, x);
    var t' := t.(head := h);
    var rest := Words([t.lookup]) + Rows(DmRows(t.dms)) + Rows(TdRows(t.tds)) + Chars(t.strs) + Rows(LnkRows(t.lnks));
    SetIn(Chars(t.magic), Words(HeadWords(t.head)), Words(HeadWords(h)), rest, PTR * f, Word(x));
    assert Encode(t) == Chars(t.magic) + Words(HeadWords(t.head)) + rest;
    assert Encode(t') == Chars(t.magic) + Words(HeadWords(h)) + rest;
  }

  lemma {:induction false} SameFront(t: Tables, t': Tables)
    requires t.magic == t'.magic && t.head == t'.head && t.lookup == t'.lookup
    ensures Front(t) == Front(t')
  {
  }
}
