// How chicago_parser_exe/src/ch_recv.c writes each string of a collection once.
module Strings {
  import opened Wrappers
  import opened Bytes
  import opened ByteReader
  import opened DatamapOrder

  // The strings that are written, each where it first occurs.
  function Unique(strs: seq<Name>): (u: seq<Name>)
    ensures forall i, j :: 0 <= i < j < |u| ==> u[i] != u[j]
    ensures forall s :: s in u <==> s in strs
    decreases |strs|
  {
    if strs == [] then []
    else
      var last := strs[|strs| - 1];
      var u := Unique(strs[..|strs| - 1]);
      assert strs == strs[..|strs| - 1] + [last];
      if last in u then u else u + [last]
  }

  lemma {:induction false} UniqueSnoc(strs: seq<Name>, s: Name)
    ensures Unique(strs + [s]) == if s in Unique(strs) then Unique(strs) else Unique(strs) + [s]
  {
    assert (strs + [s])[..|strs|] == strs;
  }

  // The strings one behind the other, each followed by a NUL.
  function Section(u: seq<Name>): seq<Byte>
    decreases |u|
  {
    if u == [] then [] else Section(u[..|u| - 1]) + u[|u| - 1] + [0]
  }

  lemma {:induction false} SectionSnoc(u: seq<Name>, s: Name)
    ensures Section(u + [s]) == Section(u) + s + [0]
  {
    assert (u + [s])[..|u|] == u;
  }

  function IndexOf(u: seq<Name>, s: Name): (k: nat)
    requires s in u
    ensures k < |u| && u[k] == s
    ensures forall i :: 0 <= i < k ==> u[i] != s
  {
    if u[0] == s then 0 else 1 + IndexOf(u[1..], s)
  }

  lemma {:induction false} IndexIs(u: seq<Name>, k: nat)
    requires k < |u| && forall i, j :: 0 <= i < j < |u| ==> u[i] != u[j]
    ensures IndexOf(u, u[k]) == k
  {
  }

  // Where a string starts.
  function Start(u: seq<Name>, k: nat): nat
    requires k <= |u|
  {
    |Section(u[..k])|
  }

  // Strings lie apart, in order, within the section.
  lemma {:induction false} Starts(u: seq<Name>, k: nat)
    requires k < |u|
    ensures Start(u, k) + |u[k]| + 1 == Start(u, k + 1) <= |Section(u)|
    ensures Section(u)[Start(u, k)..Start(u, k) + |u[k]|] == u[k]
    ensures Section(u)[Start(u, k) + |u[k]|] == 0
    decreases |u| - k
  {
    hide Section;
    SectionSnoc(u[..k], u[k]);
    assert u[..k + 1] == u[..k] + [u[k]];
    SectionPrefix(u, k + 1);
    var s := Section(u[..k + 1]);
    assert s[Start(u, k)..Start(u, k) + |u[k]|] == u[k];
  }

  lemma {:induction false} SectionPrefix(u: seq<Name>, k: nat)
    requires k <= |u|
    ensures |Section(u[..k])| <= |Section(u)| && Section(u)[..|Section(u[..k])|] == Section(u[..k])
    decreases |u| - k
  {
    hide Section;
    if k == |u| {
      assert u[..k] == u;
    } else {
      SectionSnoc(u[..k], u[k]);
      assert u[..k + 1] == u[..k] + [u[k]];
      SectionPrefix(u, k + 1);
      var n := |Section(u[..k])|;
      assert Section(u)[..n] == Section(u[..k + 1])[..n];
    }
  }

  // The C string at a place of the section.
  lemma {:induction false} SectionCString(u: seq<Name>, k: nat)
    requires k < |u|
    ensures Start(u, k) < |Section(u)|
    ensures var rest := Section(u)[Start(u, k)..];
      ZeroAt(rest) < |rest| && Cut(rest) == Cut(u[k])
  {
    hide Section, Unique;
    Starts(u, k);
    var rest := Section(u)[Start(u, k)..];
    var n := |u[k]|;
    assert rest[..n] == u[k];
    assert rest[n] == 0;
    ZeroAtPrefix(rest, u[k]);
  }

  lemma {:induction false} ZeroAtPrefix(rest: seq<Byte>, s: seq<Byte>)
    requires |s| < |rest| && rest[..|s|] == s && rest[|s|] == 0
    ensures ZeroAt(rest) == ZeroAt(s)
  {
    var z := ZeroAt(rest);
    if z < |s| {
      assert rest[z] == s[z];
    }
    if ZeroAt(s) < |s| {
      assert rest[ZeroAt(s)] == s[ZeroAt(s)];
    }
  }
}
