// How chicago_parser_exe/src/ch_recv.c packs the saved fields of a class behind its bases.
module Layout {
  import opened Bits

  // What the layout depends on: custom fields are pointers, others take what the game says.
  datatype Need = Need(custom: bool, size: nat)

  function Min(a: nat, b: nat): nat {
    if a < b then a else b
  }

  function SlotSize(need: Need): nat {
    if need.custom then PTR else AlignTo(need.size, Min(PTR, need.size))
  }

  function Offsets(needs: seq<Need>, from: nat): (offs: seq<nat>)
    ensures |offs| == |needs|
    decreases |needs|
  {
    if needs == [] then [] else [from] + Offsets(needs[1..], from + SlotSize(needs[0]))
  }

  function End(needs: seq<Need>, from: nat): (end: nat)
    ensures end >= from
    decreases |needs|
  {
    if needs == [] then from else End(needs[1..], from + SlotSize(needs[0]))
  }

  // ch_size of a class whose own fields start at from
  function ClassSize(needs: seq<Need>, from: nat): (size: nat)
    ensures size >= from
  {
    AlignNeverShrinks(End(needs, from), PTR);
    AlignTo(End(needs, from), PTR)
  }

  // A slot holds all of its field, whatever the size; it is empty only for an empty field.
  lemma {:induction false} SlotHoldsField(need: Need)
    ensures !need.custom ==> need.size <= SlotSize(need)
    ensures SlotSize(need) == 0 <==> !need.custom && need.size == 0
  {
    if !need.custom && need.size > 0 {
      AlignNeverShrinks(need.size, Min(PTR, need.size));
    }
  }

  // What a size below that of a pointer takes: the size is its own alignment, and where that
  // is no power of two, the mask leaves room behind the field.
  const SMALL: seq<nat> := [0, 1, 2, 5, 4, 9, 10, 9]

  // A custom field takes a pointer, another one the least number of whole pointers that hold
  // it, unless it is smaller than a pointer.
  lemma {:induction false} SlotSizes(need: Need)
    ensures need.custom ==> SlotSize(need) == PTR
    ensures !need.custom && need.size >= PTR ==> SlotSize(need) % PTR == 0 && SlotSize(need) < need.size + PTR
    ensures !need.custom && need.size >= PTR ==> need.size <= SlotSize(need)
    ensures !need.custom && need.size < PTR ==> SlotSize(need) == SMALL[need.size]
  {
    if !need.custom && need.size >= PTR {
      var k := PtrBits();
      AlignIsLeastMultiple(need.size, k);
    } else if !need.custom {
      SmallSlot(need.size);
    }
  }

  lemma {:induction false} SmallSlot(n: nat)
    requires n < 8
    ensures AlignTo(n, n) == SMALL[n]
  {
    SmallMasks();
    if n == 4 {
      assert AndNot(7, 3) == 2 * AndNot(3, 1);
    } else if n == 5 {
      assert AndNot(9, 4) == 2 * AndNot(4, 2) + 1 && AndNot(4, 2) == 2 * AndNot(2, 1);
    } else if n == 6 {
      assert AndNot(11, 5) == 2 * AndNot(5, 2) && AndNot(5, 2) == 2 * AndNot(2, 1) + 1;
    } else if n == 7 {
      assert AndNot(13, 6) == 2 * AndNot(6, 3) + 1 && AndNot(6, 3) == 2 * AndNot(3, 1);
    }
  }

  lemma {:induction false} SmallMasks()
    ensures AndNot(1, 0) == 1 && AndNot(1, 1) == 0 && AndNot(2, 1) == 2 && AndNot(3, 1) == 2 && AndNot(5, 2) == 5
  {
    assert AndNot(1, 0) == 2 * AndNot(0, 0) + 1 && AndNot(1, 1) == 2 * AndNot(0, 0);
    assert AndNot(2, 1) == 2 * AndNot(1, 0) && AndNot(3, 1) == 2 * AndNot(1, 0);
    assert AndNot(5, 2) == 2 * AndNot(2, 1) + 1;
  }

  // Each field stands where the slot of the one before it ends.
  lemma {:induction false} OffsetsRun(needs: seq<Need>, from: nat, k: nat)
    requires k < |needs|
    ensures Offsets(needs, from)[0] == from
    ensures var end := Offsets(needs, from)[k] + SlotSize(needs[k]);
      if k + 1 < |needs| then Offsets(needs, from)[k + 1] == end else End(needs, from) == end
    decreases |needs|
  {
    var next := from + SlotSize(needs[0]);
    if k > 0 {
      OffsetsRun(needs[1..], next, k - 1);
    } else if |needs| > 1 {
      OffsetsRun(needs[1..], next, 0);
    }
  }

  // A class ends with a whole number of pointers, the first that takes all of its fields.
  lemma {:induction false} ClassSizeIsLeast(needs: seq<Need>, from: nat)
    ensures ClassSize(needs, from) % PTR == 0 && End(needs, from) <= ClassSize(needs, from) < End(needs, from) + PTR
  {
    var k := PtrBits();
    AlignIsLeastMultiple(End(needs, from), k);
  }

  // The slots of one class follow each other from where its own fields start.
  lemma {:induction false} OffsetsOrdered(needs: seq<Need>, from: nat, j: nat, k: nat)
    requires j < k < |needs|
    ensures from <= Offsets(needs, from)[j]
    ensures Offsets(needs, from)[j] + SlotSize(needs[j]) <= Offsets(needs, from)[k]
    ensures Offsets(needs, from)[k] + SlotSize(needs[k]) <= End(needs, from)
    decreases |needs|
  {
    var next := from + SlotSize(needs[0]);
    if j > 0 {
      OffsetsOrdered(needs[1..], next, j - 1, k - 1);
    } else {
      OffsetsInside(needs[1..], next, k - 1);
    }
  }

  lemma {:induction false} OffsetsInside(needs: seq<Need>, from: nat, k: nat)
    requires k < |needs|
    ensures from <= Offsets(needs, from)[k]
    ensures Offsets(needs, from)[k] + SlotSize(needs[k]) <= End(needs, from) <= ClassSize(needs, from)
    decreases |needs|
  {
    AlignNeverShrinks(End(needs, from), PTR);
    if k > 0 {
      OffsetsInside(needs[1..], from + SlotSize(needs[0]), k - 1);
    }
  }

  lemma {:induction false} OffsetsSnoc(needs: seq<Need>, need: Need, from: nat)
    ensures Offsets(needs + [need], from) == Offsets(needs, from) + [End(needs, from)]
    ensures End(needs + [need], from) == End(needs, from) + SlotSize(need)
    decreases |needs|
  {
    if needs != [] {
      assert (needs + [need])[1..] == needs[1..] + [need];
      OffsetsSnoc(needs[1..], need, from + SlotSize(needs[0]));
    }
  }

  lemma {:induction false} EndShifts(needs: seq<Need>, from: nat, by_: nat)
    ensures End(needs, from + by_) == End(needs, from) + by_
    decreases |needs|
  {
    if needs != [] {
      EndShifts(needs[1..], from + SlotSize(needs[0]), by_);
    }
  }

  // The size of a class is a whole number of pointers, and a class that starts later, by one
  // pointer at least, is larger.
  lemma {:induction false} ClassSizeGrows(needs: seq<Need>, from: nat)
    ensures ClassSize(needs, from) % PTR == 0
    ensures from >= PTR ==> ClassSize(needs, 0) < ClassSize(needs, from)
  {
    var k := PtrBits();
    AlignIsLeastMultiple(End(needs, from), k);
    AlignNeverShrinks(End(needs, 0), PTR);
    EndShifts(needs, 0, from);
  }

  // ---------- a class with its bases ----------

  // The size of a class whose bases come before it in the chain, outermost base first.
  function ChainSize(chain: seq<seq<Need>>): nat
    decreases |chain|
  {
    if chain == [] then 0 else ClassSize(chain[|chain| - 1], ChainSize(chain[..|chain| - 1]))
  }

  // Where field k of class i of the chain is.
  function ChainOffset(chain: seq<seq<Need>>, i: nat, k: nat): nat
    requires i < |chain| && k < |chain[i]|
  {
    Offsets(chain[i], ChainSize(chain[..i]))[k]
  }

  lemma {:induction false} ChainGrows(chain: seq<seq<Need>>, i: nat, j: nat)
    requires i <= j <= |chain|
    ensures ChainSize(chain[..i]) <= ChainSize(chain[..j])
    decreases j
  {
    if i < j {
      assert chain[..j][..j - 1] == chain[..j - 1];
      ChainGrows(chain, i, j - 1);
    }
  }

  // Every slot lies within its class, behind all that belongs to the bases.
  lemma {:induction false} ChainSlotInside(chain: seq<seq<Need>>, i: nat, k: nat)
    requires i < |chain| && k < |chain[i]|
    ensures ChainSize(chain[..i]) <= ChainOffset(chain, i, k)
    ensures ChainOffset(chain, i, k) + SlotSize(chain[i][k]) <= ChainSize(chain[..i + 1]) <= ChainSize(chain)
  {
    OffsetsInside(chain[i], ChainSize(chain[..i]), k);
    assert chain[..i + 1][..i] == chain[..i];
    ChainGrows(chain, i + 1, |chain|);
    assert chain[..|chain|] == chain;
  }

  // Along a chain of base classes no two slots overlap.
  lemma {:induction false} ChainSlotsApart(chain: seq<seq<Need>>, i: nat, k: nat, j: nat, l: nat)
    requires i < |chain| && k < |chain[i]| && j < |chain| && l < |chain[j]|
    requires i < j || (i == j && k < l)
    ensures ChainOffset(chain, i, k) + SlotSize(chain[i][k]) <= ChainOffset(chain, j, l)
  {
    ChainSlotInside(chain, i, k);
    ChainSlotInside(chain, j, l);
    if i < j {
      ChainGrows(chain, i + 1, j);
    } else {
      OffsetsOrdered(chain[i], ChainSize(chain[..i]), k, l);
    }
  }

  // ---------- what the loader will accept ----------

  // Every field starts inside the class exactly if the last one does not stand, empty, at
  // the very end.
  lemma {:induction false} FieldsStartInside(needs: seq<Need>, from: nat)
    requires |needs| > 0
    ensures (forall k :: 0 <= k < |needs| ==> Offsets(needs, from)[k] < ClassSize(needs, from)) <==>
      var last := |needs| - 1; SlotSize(needs[last]) > 0 || Offsets(needs, from)[last] % PTR != 0
  {
    var last := |needs| - 1;
    var offs := Offsets(needs, from);
    assert needs == needs[..last] + [needs[last]];
    OffsetsSnoc(needs[..last], needs[last], from);
    assert End(needs, from) == offs[last] + SlotSize(needs[last]);
    var bits := PtrBits();
    AlignIsLeastMultiple(End(needs, from), bits);
    forall k: nat | k < last
      ensures offs[k] <= offs[last]
    {
      OffsetsOrdered(needs, from, k, last);
    }
  }
}
