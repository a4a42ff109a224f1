// chicago_parse_lib/src/ch_byte_reader.h: a cursor in a window of bytes. A reader that was
// asked for too much has its cursor behind its end, and stays that way.
module ByteReader {
  import opened Wrappers
  import opened Bytes

  // Positions count from the start of the loaded bytes.
  datatype Window = Window(cur: nat, end: int)

  predicate Overflowed(w: Window) {
    w.cur > w.end
  }

  function SetOverflowed(w: Window): Window {
    w.(end := w.cur - 1)
  }

  predicate CouldSkip(w: Window, n: nat) {
    !Overflowed(w) && w.cur + n <= w.end
  }

  function Skip(w: Window, n: nat): Window {
    if CouldSkip(w, n) then w.(cur := w.cur + n) else SetOverflowed(w)
  }

  function Remaining(w: Window): nat {
    if Overflowed(w) then 0 else w.end - w.cur
  }

  // ch_br_split_skip_swap: the reader keeps the chunk, the result is the reader after it.
  // When the chunk does not fit, the reader is left alone and the result is overflowed.
  function SplitChunk(w: Window, n: nat): Window {
    if CouldSkip(w, n) then w.(end := w.cur + n) else w
  }

  function SplitRest(w: Window, n: nat): Window
    requires w.end >= 0
  {
    if CouldSkip(w, n) then Window(w.cur + n, w.end) else SetOverflowed(Window(w.end, w.end))
  }

  // ch_br_jmp_rel
  function JmpRel(w: Window, n: nat): Window
    requires w.end >= 0
  {
    if CouldSkip(w, n) then Window(w.cur + n, w.end) else SetOverflowed(Window(w.end, w.end))
  }

  // The bytes that are left.
  function Rest(data: seq<Byte>, w: Window): seq<Byte>
    requires w.end <= |data|
  {
    if Overflowed(w) then [] else data[w.cur..w.end]
  }

  function Signed(x: nat, range: nat): int {
    if x < range / 2 then x else x - range
  }

  function Join16(a: nat, b: nat): int {
    Signed(a + 0x100 * b, 0x1_0000)
  }

  function Join32(a: nat, b: nat, c: nat, d: nat): int {
    Signed(a + 0x100 * b + 0x1_0000 * c + 0x100_0000 * d, 0x1_0000_0000)
  }

  // Little-endian int16_t and int32_t; zero if there are not enough bytes.
  function Peek16(data: seq<Byte>, w: Window): int
    requires w.end <= |data|
  {
    if CouldSkip(w, 2) then Join16(data[w.cur], data[w.cur + 1]) else 0
  }

  function Peek32(data: seq<Byte>, w: Window): int
    requires w.end <= |data|
  {
    if CouldSkip(w, 4) then
      Join32(data[w.cur], data[w.cur + 1], data[w.cur + 2], data[w.cur + 3])
    else 0
  }

  // How many bytes come before the first zero byte.
  function ZeroAt(s: seq<Byte>): (n: nat)
    ensures n <= |s| && (n < |s| ==> s[n] == 0) && forall i :: 0 <= i < n ==> s[i] != 0
  {
    if s == [] || s[0] == 0 then 0 else 1 + ZeroAt(s[1..])
  }

  lemma {:induction false} ZeroLater(s: seq<Byte>, n: nat)
    requires n < |s| && s[n] != 0
    ensures ZeroAt(s[n..]) == 1 + ZeroAt(s[n + 1..])
  {
    assert s[n..][1..] == s[n + 1..];
  }

  lemma {:induction false} ZeroHere(s: seq<Byte>, n: nat)
    requires n <= |s| && (n < |s| ==> s[n] == 0)
    ensures ZeroAt(s[n..]) == 0
  {
  }

  // What a C string is: all up to the first NUL.
  function Cut(s: Name): Name {
    s[..ZeroAt(s)]
  }

  // Once overflowed, a reader yields nothing and stays overflowed.
  lemma {:induction false} OverflowIsSticky(data: seq<Byte>, w: Window, n: nat)
    requires Overflowed(w) && w.end <= |data|
    ensures Overflowed(Skip(w, n)) && Remaining(w) == 0 && Rest(data, w) == []
    ensures Peek16(data, w) == 0 && Peek32(data, w) == 0
    ensures Overflowed(SplitChunk(w, n)) && (w.end >= 0 ==> Overflowed(SplitRest(w, n)) && Overflowed(JmpRel(w, n)))
  {
  }

  // A chunk and what comes after it divide the window.
  lemma {:induction false} SplitDivides(data: seq<Byte>, w: Window, n: nat)
    requires 0 <= w.end <= |data| && !Overflowed(w)
    ensures var chunk, rest := Rest(data, SplitChunk(w, n)), Rest(data, SplitRest(w, n));
      CouldSkip(w, n) <==> Rest(data, w) == chunk + rest && |chunk| == n
    ensures CouldSkip(w, n) <==> !Overflowed(SplitRest(w, n))
  {
    if !CouldSkip(w, n) {
      assert SplitChunk(w, n) == w;
      assert |Rest(data, w)| < n;
    } else {
      assert Rest(data, w) == Rest(data, SplitChunk(w, n)) + Rest(data, SplitRest(w, n));
    }
  }

  class ByteReader {
    const data: seq<Byte>
    var cur: nat
    var end: int

    ghost predicate Valid()
      reads this
    {
      cur <= |data| && -1 <= end <= |data|
    }

    function View(): Window
      reads this
    {
      Window(cur, end)
    }

    constructor (data: seq<Byte>)
      ensures Valid() && this.data == data && View() == Window(0, |data|)
    {
      this.data := data;
      cur := 0;
      end := |data|;
    }

    // *br = w
    method Assign(w: Window)
      requires w.cur <= |data| && -1 <= w.end <= |data|
      modifies this
      ensures Valid() && View() == w
    {
      cur := w.cur;
      end := w.end;
    }

    method MarkOverflowed()
      modifies this`end
      ensures View() == SetOverflowed(old(View()))
    {
      end := cur - 1;
    }

    method TrySkip(n: nat) returns (overflowed: bool)
      requires Valid()
      modifies this
      ensures Valid() && View() == Skip(old(View()), n) && overflowed == Overflowed(View())
    {
      if CouldSkip(View(), n) {
        cur := cur + n;
      } else {
        MarkOverflowed();
      }
      overflowed := Overflowed(View());
    }

    // ch_br_strlen
    method StrLen() returns (n: nat)
      requires Valid()
      ensures n == ZeroAt(Rest(data, View()))
    {
      hide ZeroAt;
      n := 0;
      ghost var s := Rest(data, View());
      assert s[0..] == s;
      while n < Remaining(View()) && data[cur + n] != 0
        invariant n <= |s| == Remaining(View()) && n + ZeroAt(s[n..]) == ZeroAt(s)
      {
        ZeroLater(s, n);
        n := n + 1;
      }
      ZeroHere(s, n);
    }

    method Read(n: nat) returns (bytes: Option<seq<Byte>>)
      requires Valid()
      modifies this
      ensures Valid() && View() == Skip(old(View()), n)
      ensures bytes == if CouldSkip(old(View()), n) then Some(data[old(cur)..old(cur) + n]) else None
    {
      if CouldSkip(View(), n) {
        bytes := Some(data[cur..cur + n]);
        cur := cur + n;
      } else {
        MarkOverflowed();
        bytes := None;
      }
    }

    method Read16() returns (x: int)
      requires Valid()
      modifies this
      ensures Valid() && View() == Skip(old(View()), 2) && x == Peek16(data, old(View()))
    {
      hide Join16;
      x := 0;
      if CouldSkip(View(), 2) {
        x := Join16(data[cur], data[cur + 1]);
        cur := cur + 2;
      } else {
        MarkOverflowed();
      }
    }

    method Read32() returns (x: int)
      requires Valid()
      modifies this
      ensures Valid() && View() == Skip(old(View()), 4) && x == Peek32(data, old(View()))
    {
      hide Join32;
      x := 0;
      if CouldSkip(View(), 4) {
        x := Join32(data[cur], data[cur + 1], data[cur + 2], data[cur + 3]);
        cur := cur + 4;
      } else {
        MarkOverflowed();
      }
    }

    method SplitSkip(n: nat) returns (chunk: Window)
      requires Valid()
      modifies this
      ensures Valid() && View() == Skip(old(View()), n) && chunk == SplitChunk(old(View()), n)
    {
      if CouldSkip(View(), n) {
        chunk := Window(cur, cur + n);
        cur := cur + n;
      } else {
        chunk := Window(cur, end);
        MarkOverflowed();
      }
    }

    method SplitSkipSwap(n: nat) returns (rest: Window)
      requires Valid() && end >= 0
      modifies this
      ensures Valid() && View() == SplitChunk(old(View()), n) && rest == SplitRest(old(View()), n)
    {
      if CouldSkip(View(), n) {
        rest := Window(cur + n, end);
        end := cur + n;
      } else {
        rest := SetOverflowed(Window(end, end));
      }
    }
  }
}
