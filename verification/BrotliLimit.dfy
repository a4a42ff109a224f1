// BrotliCalculateDistanceCodeLimit of shared/thirdparty/brotli/common/constants.h.
module BrotliLimit {
  import opened Bits

  const SHORT_CODES: nat := 16

  datatype CodeLimit = CodeLimit(maxAlphabetSize: nat, maxDistance: nat)

  // ---------- distances, as section 4 of RFC 7932 defines them ----------

  // How many extra bits a distance symbol takes.
  function ExtraBits(dcode: nat, npostfix: nat, ndirect: nat): nat {
    if dcode < SHORT_CODES + ndirect then 0
    else 1 + (dcode - ndirect - SHORT_CODES) / Pow2(npostfix + 1)
  }

  function Distance(dcode: nat, extra: nat, npostfix: nat, ndirect: nat): int
    requires dcode >= SHORT_CODES
  {
    if dcode < SHORT_CODES + ndirect then dcode - SHORT_CODES + 1
    else
      var d := dcode - ndirect - SHORT_CODES;
      var hcode, lcode := d / Pow2(npostfix), d % Pow2(npostfix);
      var offset := (2 + hcode % 2) * Pow2(ExtraBits(dcode, npostfix, ndirect)) - 4;
      (offset + extra) * Pow2(npostfix) + lcode + ndirect + 1
  }

  // ---------- groups ----------

  function GroupBits(group: nat): nat {
    1 + group / 2
  }

  // Where a group of symbols begins, in units of 2^npostfix.
  function Start(group: nat): nat
  {
    assert Pow2(GroupBits(group)) >= 2;
    (2 + group % 2) * Pow2(GroupBits(group)) - 4
  }

  // Groups follow each other without gap or overlap.
  lemma {:induction false} GroupsAdjoin(group: nat)
    ensures Start(group + 1) == Start(group) + Pow2(GroupBits(group))
  {
    hide Pow2, GroupBits, Start;
    StartIs(group);
    StartIs(group + 1);
    BitsAre(group);
    BitsAre(group + 1);
    NextGroup(group);
    Pow2Next(GroupBits(group));
    Adjoin(group % 2, Pow2(GroupBits(group)));
  }

  lemma {:induction false} NextGroup(group: nat)
    ensures group % 2 == 1 ==> (group + 1) % 2 == 0 && (group + 1) / 2 == group / 2 + 1
    ensures group % 2 == 0 ==> (group + 1) % 2 == 1 && (group + 1) / 2 == group / 2
  {
  }

  lemma {:induction false} Adjoin(half: nat, p: nat)
    requires half <= 1
    ensures (2 + half) * p + p == if half == 1 then 2 * (2 * p) else 3 * p
    ensures (2 + 0) * (2 * p) == 2 * (2 * p) && (2 + 1) * p == 3 * p
  {
    if half == 1 {
      assert (2 + half) * p == 3 * p;
    } else {
      assert (2 + half) * p == 2 * p;
    }
  }

  lemma {:induction false} StartMonotone(g: nat, h: nat)
    requires g <= h
    ensures Start(g) <= Start(h)
    decreases h
  {
    if g < h {
      StartMonotone(g, h - 1);
      GroupsAdjoin(h - 1);
    }
  }

  // The symbol with group g and postfix lcode has the distances of its group with that postfix.
  lemma {:induction false} DistanceOfGroup(g: nat, lcode: nat, extra: nat, npostfix: nat, ndirect: nat)
    requires lcode < Pow2(npostfix)
    ensures var dcode := SHORT_CODES + ndirect + g * Pow2(npostfix) + lcode;
      && ExtraBits(dcode, npostfix, ndirect) == GroupBits(g)
      && Distance(dcode, extra, npostfix, ndirect) == (Start(g) + extra) * Pow2(npostfix) + lcode + ndirect + 1
  {
    hide Pow2, Start, GroupBits;
    Pow2Next(npostfix);
    GroupParts(g, lcode, Pow2(npostfix));
    StartIs(g);
    BitsAre(g);
  }

  lemma {:induction false} BitsAre(g: nat)
    ensures GroupBits(g) == 1 + g / 2
  {
  }

  lemma {:induction false} StartIs(g: nat)
    ensures Start(g) == (2 + g % 2) * Pow2(GroupBits(g)) - 4
  {
  }

  lemma {:induction false} GroupParts(g: nat, lcode: nat, p: nat)
    requires lcode < p
    ensures g * p >= 0 && (g * p + lcode) / p == g && (g * p + lcode) % p == lcode && (g * p + lcode) / (2 * p) == g / 2
  {
    DivModUnique(g * p + lcode, p, g, lcode);
    SplitGroup(g, lcode, p);
    DivModUnique(g * p + lcode, 2 * p, g / 2, (g % 2) * p + lcode);
  }

  lemma {:induction false} SplitGroup(g: nat, lcode: nat, p: nat)
    requires lcode < p
    ensures g * p + lcode == (2 * p) * (g / 2) + ((g % 2) * p + lcode) && (g % 2) * p + lcode < 2 * p
  {
    var q, r := g / 2, g % 2;
    assert g == 2 * q + r;
    assert (2 * q + r) * p == (2 * p) * q + r * p;
  }

  // Whatever is behind the start of a group is in that group or in a later one.
  lemma {:induction false} GroupsReach(q: nat, from: nat) returns (g: nat)
    requires from <= Start(from) <= q
    ensures Start(g) <= q < Start(g + 1)
    decreases q - from
  {
    hide Start;
    LaterStart(from);
    if q < Start(from + 1) {
      g := from;
    } else {
      LaterStart(from + 1);
      g := GroupsReach(q, from + 1);
    }
  }

  lemma {:induction false} FirstStart()
    ensures Start(0) == 0
  {
    assert Pow2(1) == 2;
  }

  lemma {:induction false} LaterStart(g: nat)
    ensures g <= Start(g) < Start(g + 1)
    decreases g
  {
    GroupsAdjoin(g);
    if g == 0 {
      FirstStart();
    } else {
      LaterStart(g - 1);
    }
  }

  // A symbol with so many extra bits has the distance.
  ghost predicate HasDistance(dcode: nat, extra: nat, npostfix: nat, ndirect: nat, distance: int) {
    && dcode >= SHORT_CODES && extra < Pow2(ExtraBits(dcode, npostfix, ndirect))
    && Distance(dcode, extra, npostfix, ndirect) == distance
  }

  // Every distance has a code.
  lemma {:induction false} DistanceCoded(distance: nat, npostfix: nat, ndirect: nat) returns (dcode: nat, extra: nat)
    requires distance >= 1
    ensures HasDistance(dcode, extra, npostfix, ndirect, distance)
  {
    hide Distance, ExtraBits, Start, Pow2;
    if distance <= ndirect {
      dcode, extra := SHORT_CODES + distance - 1, 0;
      DirectDistance(dcode, extra, npostfix, ndirect);
      assert Pow2(0) == 1 by { Pow2Next(0); }
    } else {
      var p, y := Pow2(npostfix), distance - ndirect - 1;
      var lcode := Parts(y, p);
      FirstStart();
      var g := GroupsReach(y / p, 0);
      extra := y / p - Start(g);
      GroupsAdjoin(g);
      DistanceOfGroup(g, lcode, extra, npostfix, ndirect);
      MulMono(0, g, p);
      dcode := SHORT_CODES + ndirect + g * p + lcode;
    }
  }

  // The parts of a symbol behind the direct ones.
  lemma {:induction false} GroupOfCode(dcode: nat, extra: nat, npostfix: nat, ndirect: nat, distance: int)
      returns (g: nat, lcode: nat)
    requires HasDistance(dcode, extra, npostfix, ndirect, distance) && dcode >= SHORT_CODES + ndirect
    ensures lcode < Pow2(npostfix) && dcode == SHORT_CODES + ndirect + g * Pow2(npostfix) + lcode
    ensures distance == (Start(g) + extra) * Pow2(npostfix) + lcode + ndirect + 1 > ndirect
    ensures Start(g) <= Start(g) + extra < Start(g + 1)
  {
    hide Distance, ExtraBits, Start, Pow2;
    var d, p := dcode - SHORT_CODES - ndirect, Pow2(npostfix);
    lcode := Parts(d, p);
    g := d / p;
    DistanceOfGroup(g, lcode, extra, npostfix, ndirect);
    GroupsAdjoin(g);
    MulMono(0, Start(g) + extra, p);
  }

  // No distance has two codes.
  lemma {:induction false} DistanceOnce(distance: nat, npostfix: nat, ndirect: nat, dcode: nat, extra: nat,
        dcode': nat, extra': nat)
    requires HasDistance(dcode, extra, npostfix, ndirect, distance)
    requires HasDistance(dcode', extra', npostfix, ndirect, distance)
    ensures dcode == dcode' && extra == extra'
  {
    hide Distance, ExtraBits, Start, Pow2, HasDistance;
    if dcode < SHORT_CODES + ndirect || dcode' < SHORT_CODES + ndirect {
      DirectOrNot(dcode, extra, npostfix, ndirect, distance);
      DirectOrNot(dcode', extra', npostfix, ndirect, distance);
    } else {
      var g, lcode := GroupOfCode(dcode, extra, npostfix, ndirect, distance);
      var g', lcode' := GroupOfCode(dcode', extra', npostfix, ndirect, distance);
      QuotientUnique(Pow2(npostfix), Start(g) + extra, lcode, Start(g') + extra', lcode');
      if g < g' {
        StartMonotone(g + 1, g');
        assert false;
      } else if g' < g {
        StartMonotone(g' + 1, g);
        assert false;
      }
    }
  }

  lemma {:induction false} DirectOrNot(dcode: nat, extra: nat, npostfix: nat, ndirect: nat, distance: int)
    requires HasDistance(dcode, extra, npostfix, ndirect, distance)
    ensures dcode >= SHORT_CODES && (distance <= ndirect <==> dcode < SHORT_CODES + ndirect)
    ensures dcode < SHORT_CODES + ndirect ==> extra == 0 && distance == dcode - SHORT_CODES + 1
  {
    hide Distance, ExtraBits, Start, Pow2;
    if dcode < SHORT_CODES + ndirect {
      DirectDistance(dcode, extra, npostfix, ndirect);
      assert Pow2(0) == 1 by { Pow2Next(0); }
    } else {
      var g, lcode := GroupOfCode(dcode, extra, npostfix, ndirect, distance);
    }
  }

  // ---------- the alphabet ----------

  // The symbols below size represent no distance above limit, limit is represented, and
  // the distance after max is the first to be missing from the group after them.
  ghost predicate ExactLimit(r: CodeLimit, max: nat, npostfix: nat, ndirect: nat) {
    && r.maxDistance <= max
    && (forall dcode: nat, extra: nat ::
        SHORT_CODES <= dcode < r.maxAlphabetSize && extra < Pow2(ExtraBits(dcode, npostfix, ndirect)) ==>
        Distance(dcode, extra, npostfix, ndirect) <= r.maxDistance)
    && (r.maxDistance == 0 || exists dcode: nat, extra: nat ::
        SHORT_CODES <= dcode < r.maxAlphabetSize && extra < Pow2(ExtraBits(dcode, npostfix, ndirect)) &&
        Distance(dcode, extra, npostfix, ndirect) == r.maxDistance)
    && (exists dcode: nat, extra: nat ::
        r.maxAlphabetSize <= dcode < r.maxAlphabetSize + Pow2(npostfix) && dcode >= SHORT_CODES &&
        extra < Pow2(ExtraBits(dcode, npostfix, ndirect)) &&
        Distance(dcode, extra, npostfix, ndirect) == max + 1)
  }

  // No group is cut in two.
  ghost predicate CompleteGroups(r: CodeLimit, npostfix: nat, ndirect: nat) {
    r.maxAlphabetSize >= SHORT_CODES + ndirect && (r.maxAlphabetSize - SHORT_CODES - ndirect) % Pow2(npostfix) == 0
  }

  // Symbols of the first groups stay within them.
  lemma {:induction false} SymbolBound(dcode: nat, extra: nat, groups: nat, npostfix: nat, ndirect: nat)
    requires SHORT_CODES <= dcode < SHORT_CODES + ndirect + groups * Pow2(npostfix)
    requires extra < Pow2(ExtraBits(dcode, npostfix, ndirect))
    ensures Distance(dcode, extra, npostfix, ndirect) <= Start(groups) * Pow2(npostfix) + ndirect
  {
    hide Distance, ExtraBits, Start, Pow2;
    if dcode >= SHORT_CODES + ndirect {
      var p := Pow2(npostfix);
      var g, lcode := GroupBelow(dcode - SHORT_CODES - ndirect, groups, p);
      GroupSymbolBound(g, lcode, extra, groups, npostfix, ndirect);
    } else {
      DirectDistance(dcode, extra, npostfix, ndirect);
      MulMono(0, Start(groups), Pow2(npostfix));
    }
  }

  lemma {:induction false} DirectDistance(dcode: nat, extra: nat, npostfix: nat, ndirect: nat)
    requires SHORT_CODES <= dcode < SHORT_CODES + ndirect
    ensures ExtraBits(dcode, npostfix, ndirect) == 0
    ensures Distance(dcode, extra, npostfix, ndirect) == dcode - SHORT_CODES + 1
  {
  }

  lemma {:induction false} GroupBelow(d: nat, groups: nat, p: nat) returns (g: nat, lcode: nat)
    requires p >= 1 && d < groups * p
    ensures d == g * p + lcode && lcode < p && g < groups
  {
    g, lcode := d / p, d % p;
    if g >= groups {
      MulMono(groups, g, p);
    }
  }

  lemma {:induction false} GroupSymbolBound(g: nat, lcode: nat, extra: nat, groups: nat, npostfix: nat, ndirect: nat)
    requires g < groups && lcode < Pow2(npostfix)
    requires extra < Pow2(ExtraBits(SHORT_CODES + ndirect + g * Pow2(npostfix) + lcode, npostfix, ndirect))
    ensures Distance(SHORT_CODES + ndirect + g * Pow2(npostfix) + lcode, extra, npostfix, ndirect)
         <= Start(groups) * Pow2(npostfix) + ndirect
  {
    hide Distance, ExtraBits, Start, Pow2;
    DistanceOfGroup(g, lcode, extra, npostfix, ndirect);
    GroupsAdjoin(g);
    StartMonotone(g + 1, groups);
    MulMono(Start(g) + extra + 1, Start(groups), Pow2(npostfix));
    Assemble(0, Start(g), extra, Pow2(npostfix));
  }

  // The distance max + 1 lies in group g.
  ghost predicate InGroup(max: nat, g: nat, npostfix: nat, ndirect: nat)
  {
    max >= ndirect && Start(g) <= (max - ndirect) / Pow2(npostfix) < Start(g + 1)
  }

  // The alphabet of the first g groups.
  lemma {:induction false} GroupsLimit(r: CodeLimit, max: nat, g: nat, npostfix: nat, ndirect: nat)
    requires InGroup(max, g, npostfix, ndirect)
    requires r.maxAlphabetSize == SHORT_CODES + ndirect + g * Pow2(npostfix)
    requires r.maxDistance == Start(g) * Pow2(npostfix) + ndirect
    ensures ExactLimit(r, max, npostfix, ndirect) && CompleteGroups(r, npostfix, ndirect)
  {
    hide Distance, ExtraBits, Start, Pow2, InGroup, CompleteGroups;
    forall dcode: nat, extra: nat |
      SHORT_CODES <= dcode < r.maxAlphabetSize && extra < Pow2(ExtraBits(dcode, npostfix, ndirect))
      ensures Distance(dcode, extra, npostfix, ndirect) <= r.maxDistance
    {
      SymbolBound(dcode, extra, g, npostfix, ndirect);
    }
    NextMissing(max, g, npostfix, ndirect);
    LimitAttained(g, npostfix, ndirect);
    WholeGroups(r, g, npostfix, ndirect);
  }

  lemma {:induction false} WholeGroups(r: CodeLimit, g: nat, npostfix: nat, ndirect: nat)
    requires r.maxAlphabetSize == SHORT_CODES + ndirect + g * Pow2(npostfix)
    ensures CompleteGroups(r, npostfix, ndirect)
  {
    hide Pow2;
    MulMono(0, g, Pow2(npostfix));
    DivModUnique(g * Pow2(npostfix), Pow2(npostfix), g, 0);
  }

  lemma {:induction false} NextMissing(max: nat, g: nat, npostfix: nat, ndirect: nat)
    requires InGroup(max, g, npostfix, ndirect)
    ensures Start(g) * Pow2(npostfix) + ndirect <= max
    ensures var first := SHORT_CODES + ndirect + g * Pow2(npostfix);
      exists dcode: nat, extra: nat ::
        first <= dcode < first + Pow2(npostfix) &&
        extra < Pow2(ExtraBits(dcode, npostfix, ndirect)) && Distance(dcode, extra, npostfix, ndirect) == max + 1
  {
    hide Distance, ExtraBits, Start, Pow2;
    var p := Pow2(npostfix);
    var lcode := Parts(max - ndirect, p);
    var q := (max - ndirect) / p;
    MulMono(Start(g), q, p);
    GroupsAdjoin(g);
    var extra: nat := q - Start(g);
    DistanceOfGroup(g, lcode, extra, npostfix, ndirect);
    MulMono(0, g, p);
    var next := SHORT_CODES + ndirect + g * p + lcode;
    assert Distance(next, extra, npostfix, ndirect) == max + 1;
  }

  lemma {:induction false} Parts(x: nat, p: nat) returns (r: nat)
    requires p >= 1
    ensures r < p && x == (x / p) * p + r
  {
    r := x % p;
  }

  lemma {:induction false} LimitAttained(g: nat, npostfix: nat, ndirect: nat)
    ensures var limit := Start(g) * Pow2(npostfix) + ndirect;
      limit == 0 || exists dcode: nat, extra: nat ::
        SHORT_CODES <= dcode < SHORT_CODES + ndirect + g * Pow2(npostfix) &&
        extra < Pow2(ExtraBits(dcode, npostfix, ndirect)) &&
        Distance(dcode, extra, npostfix, ndirect) == limit
  {
    hide Distance, ExtraBits, Start, Pow2, GroupBits;
    var p := Pow2(npostfix);
    if g > 0 {
      GroupsAdjoin(g - 1);
      var extra: nat := Pow2(GroupBits(g - 1)) - 1;
      DistanceOfGroup(g - 1, p - 1, extra, npostfix, ndirect);
      Assemble(g - 1, Start(g - 1), extra, p);
      MulMono(0, g - 1, p);
      var dcode: nat := SHORT_CODES + ndirect + (g - 1) * p + (p - 1);
      assert Distance(dcode, extra, npostfix, ndirect) == Start(g) * p + ndirect;
    } else {
      FirstGroup(npostfix);
      if ndirect > 0 {
        var dcode: nat := SHORT_CODES + ndirect - 1;
        DirectDistance(dcode, 0, npostfix, ndirect);
        assert Pow2(0) == 1 by { Pow2Next(0); }
        assert Distance(dcode, 0, npostfix, ndirect) == ndirect;
      }
    }
  }

  lemma {:induction false} DirectLimit(max: nat, npostfix: nat, ndirect: nat)
    requires max <= ndirect
    ensures ExactLimit(CodeLimit(max + SHORT_CODES, max), max, npostfix, ndirect)
    ensures max == ndirect ==> CompleteGroups(CodeLimit(max + SHORT_CODES, max), npostfix, ndirect)
  {
    DivModUnique(0, Pow2(npostfix), 0, 0);
    var r := CodeLimit(max + SHORT_CODES, max);
    if max > 0 {
      assert Distance(max + SHORT_CODES - 1, 0, npostfix, ndirect) == max;
    }
    if max < ndirect {
      assert Distance(max + SHORT_CODES, 0, npostfix, ndirect) == max + 1;
    } else {
      DistanceOfGroup(0, 0, 0, npostfix, ndirect);
      assert Pow2(1) == 2;
      assert Distance(max + SHORT_CODES, 0, npostfix, ndirect) == max + 1;
    }
  }

  // t is x shifted right.
  ghost predicate Shifted(t: nat, bits: nat, x: nat) {
    t * Pow2(bits) <= x < (t + 1) * Pow2(bits)
  }

  lemma {:induction false} NotShifted(x: nat)
    ensures Shifted(x, 0, x)
  {
    assert Pow2(0) == 1;
  }

  lemma {:induction false} AllShifted(bits: nat, x: nat)
    requires Shifted(0, bits, x)
    ensures x < Pow2(bits)
  {
  }

  lemma {:induction false} ShiftedOnce(t: nat, bits: nat, x: nat)
    requires t >= 1 && Shifted(t, bits, x)
    ensures Shifted(t / 2, bits + 1, x) && (t / 2 == 0 ==> Pow2(bits) <= x)
  {
    hide Pow2;
    Halved(t, Pow2(bits), x);
    Pow2Next(bits);
  }

  // The bit length loop: the largest power of two that is not above x.
  method Log2Floor(x: nat) returns (bits: nat)
    requires x >= 1
    ensures bits >= 1 && Pow2(bits - 1) <= x < Pow2(bits)
  {
    hide Pow2, Shifted;
    bits := 0;
    NotShifted(x);
    var tmp := x;
    while tmp != 0
      invariant tmp == 0 ==> bits >= 1 && Pow2(bits - 1) <= x
      invariant Shifted(tmp, bits, x)
      decreases tmp
    {
      ShiftedOnce(tmp, bits, x);
      bits := bits + 1;
      tmp := tmp / 2;
    }
    AllShifted(bits, x);
  }

  lemma {:induction false} Halved(t: nat, p: nat, x: nat)
    requires t >= 1 && t * p <= x < (t + 1) * p
    ensures (t / 2) * (2 * p) <= x < (t / 2 + 1) * (2 * p) && (t / 2 == 0 ==> p <= x)
  {
    var h, r := t / 2, t % 2;
    assert t == 2 * h + r;
    assert (2 * h + r) * p == h * (2 * p) + r * p;
    assert (2 * h + r + 1) * p == h * (2 * p) + (r + 1) * p;
    assert (h + 1) * (2 * p) == h * (2 * p) + 2 * p;
    if r == 0 {
      assert r * p == 0;
    }
  }

  // The group is read off the two highest bits.
  lemma {:induction false} GroupFound(offset: nat, bits: nat, half: nat)
    requires bits >= 1 && Pow2(bits - 1) <= (offset + 4) / 2 < Pow2(bits) && bits >= 2
    requires half == (offset + 4) / Pow2(bits - 1) % 2
    ensures var g := 2 * (bits - 2) + half; Start(g) <= offset < Start(g + 1)
  {
    hide Pow2, Start, GroupBits;
    var b := bits - 1;
    Pow2Next(b);
    TwoOrThree(offset + 4, Pow2(b));
    var g := 2 * (bits - 2) + half;
    BitsAre(g);
    StartIs(g);
    GroupsAdjoin(g);
  }

  lemma {:induction false} TwoOrThree(x: nat, p: nat)
    requires p >= 1 && 2 * p <= x < 4 * p
    ensures var half := x / p % 2; (2 + half) * p <= x < (2 + half) * p + p
  {
    var q := x / p;
    var r := Parts(x, p);
    if q < 2 {
      MulMono(q, 1, p);
    } else if q > 3 {
      MulMono(4, q, p);
    }
    assert q == 2 || q == 3;
  }

  method CalculateDistanceCodeLimit(maxDistance: nat, npostfix: nat, ndirect: nat) returns (result: CodeLimit)
    ensures ExactLimit(result, maxDistance, npostfix, ndirect)
    ensures maxDistance >= ndirect ==> CompleteGroups(result, npostfix, ndirect)
  {
    hide ExactLimit, CompleteGroups, Distance, ExtraBits, Start, Or, Pow2;
    if maxDistance <= ndirect {
      DirectLimit(maxDistance, npostfix, ndirect);
      return CodeLimit(maxDistance + SHORT_CODES, maxDistance);
    }
    var forbidden := maxDistance + 1;
    var postfix := Pow2(npostfix) - 1;
    var offset := (forbidden - ndirect - 1) / Pow2(npostfix) + 4;
    var group := ForbiddenGroup(offset);
    ghost var g := group;
    assert InGroup(maxDistance, g, npostfix, ndirect);
    if group == 0 {
      FirstGroup(npostfix);
      result := CodeLimit(ndirect + SHORT_CODES, ndirect);
      GroupsLimit(result, maxDistance, g, npostfix, ndirect);
      return;
    }
    GroupsAdjoin(group - 1);
    group := group - 1;
    var ndistbits := group / 2 + 1;
    var extra := Pow2(ndistbits) - 1;
    var start := Pow2(ndistbits + 1) - 4;
    start := start + (group % 2) * Pow2(ndistbits);
    OrDisjoint(group, postfix, npostfix);
    SubRange(group, start);
    Assemble(group, start, extra, Pow2(npostfix));
    result := CodeLimit(Or(group * Pow2(npostfix), postfix) + ndirect + SHORT_CODES + 1,
                        (start + extra) * Pow2(npostfix) + postfix + ndirect + 1);
    GroupsLimit(result, maxDistance, g, npostfix, ndirect);
  }

  lemma {:induction false} FirstGroup(npostfix: nat)
    ensures Start(0) == 0 && 0 * Pow2(npostfix) == 0
  {
    assert Pow2(1) == 2;
  }

  lemma {:induction false} SubRange(group: nat, start: int)
    requires start == Pow2(group / 2 + 2) - 4 + (group % 2) * Pow2(group / 2 + 1)
    ensures start == Start(group)
  {
    var p := Pow2(group / 2 + 1);
    assert Pow2(group / 2 + 2) == 2 * p;
    assert (2 + group % 2) * p == 2 * p + (group % 2) * p;
  }

  // The group that holds the first prohibited distance.
  method ForbiddenGroup(offset: nat) returns (group: nat)
    requires offset >= 4
    ensures Start(group) <= offset - 4 < Start(group + 1)
  {
    var ndistbits := Log2Floor(offset / 2);
    ghost var bits := ndistbits;
    TwoBits(bits, offset / 2);
    ndistbits := ndistbits - 1;
    var half := offset / Pow2(ndistbits) % 2;
    GroupFound(offset - 4, bits, half);
    group := Or((ndistbits - 1) * 2, half);
    assert Pow2(1) == 2;
    OrDisjoint(ndistbits - 1, half, 1);
  }

  lemma {:induction false} TwoBits(bits: nat, x: nat)
    requires 2 <= x < Pow2(bits)
    ensures bits >= 2
  {
    if bits < 2 {
      Pow2Monotone(bits, 1);
    }
  }

  lemma {:induction false} Assemble(g: nat, start: int, extra: nat, p: nat)
    requires p >= 1
    ensures g * p + (p - 1) + 1 == (g + 1) * p
    ensures (start + extra) * p + (p - 1) + 1 == (start + extra + 1) * p
  {
  }
}
