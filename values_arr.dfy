/** The array of value slots that apply_to_all pairs with the key list, as
    the source fills it: the entry at offset j of bucket i is stored in slot
    i + j, the bucket index plus the chain offset, instead of in slot k for
    the k-th enumerated entry. Two entries can share a slot, a slot below
    the size can stay unwritten, and a slot can lie past the end. The
    corrected fill is HashTable.Table.ValuesArr. */
module ValueSlots {
  import opened Chains
  import opened Buckets
  import opened Defaults

  /** The slot the source writes for the entry at offset j of bucket b. */
  function SlotAsWritten(b: nat, j: nat): nat
  {
    b + j
  }

  /** The fill loop as written: each position (b, j) is written to slot
      SlotAsWritten(b, j), and a later write to a slot replaces an earlier
      one, so a slot ends up with the position of the highest bucket that
      wrote it. */
  method ValuesArrAsWritten<E>(bs: seq<seq<E>>) returns (written: map<nat, (nat, nat)>)
    ensures forall s :: s in written ==>
      written[s].0 < |bs| && written[s].1 < |bs[written[s].0]| && SlotAsWritten(written[s].0, written[s].1) == s
    ensures forall b, j :: 0 <= b < |bs| && 0 <= j < |bs[b]| ==>
      SlotAsWritten(b, j) in written && b <= written[SlotAsWritten(b, j)].0
  {
    written := map[];
    for i := 0 to |bs|
      invariant FilledBefore(bs, written, i)
    {
      written := WriteChain(bs, i, written);
    }
  }

  /** The slots written for the buckets before i: each holds a position
      below i whose slot it is, and each such position's slot holds it or a
      position of a later bucket. */
  ghost predicate FilledBefore<E>(bs: seq<seq<E>>, written: map<nat, (nat, nat)>, i: nat)
  {
    && (forall s :: s in written ==>
          written[s].0 < i && written[s].0 < |bs| && written[s].1 < |bs[written[s].0]|
          && SlotAsWritten(written[s].0, written[s].1) == s)
    && (forall b, j :: 0 <= b < i && b < |bs| && 0 <= j < |bs[b]| ==>
          SlotAsWritten(b, j) in written && b <= written[SlotAsWritten(b, j)].0)
  }

  /** The inner loop: walk chain i writing slot i + j for offset j. */
  method WriteChain<E>(bs: seq<seq<E>>, i: nat, written: map<nat, (nat, nat)>) returns (written': map<nat, (nat, nat)>)
    requires i < |bs| && FilledBefore(bs, written, i)
    ensures FilledBefore(bs, written', i + 1)
  {
    written' := written;
    var j := 0;
    while j < |bs[i]|
      invariant j <= |bs[i]|
      invariant forall s :: s in written' ==>
        written'[s].0 <= i && written'[s].1 < |bs[written'[s].0]| && SlotAsWritten(written'[s].0, written'[s].1) == s
      invariant forall b, k :: 0 <= b < i && 0 <= k < |bs[b]| ==>
        SlotAsWritten(b, k) in written' && b <= written'[SlotAsWritten(b, k)].0
      invariant forall k :: 0 <= k < j ==> SlotAsWritten(i, k) in written' && written'[SlotAsWritten(i, k)].0 == i
    {
      written' := written'[SlotAsWritten(i, j) := (i, j)];
      j := j + 1;
    }
  }

  /** The chains of a default table after inserting keys 0, 17 and 1 (with
      themselves as values): 0 and 17 share bucket 0, 1 sits in bucket 1. */
  const CollidingChains: seq<seq<Entry<int32, int32>>> :=
    [[Entry(0, 0), Entry(17, 17)], [Entry(1, 1)], [], [], [], [], [], [], [], [], [], [], [], [], [], [], []]

  const CollidingMap: map<nat, Entry<int32, int32>> := map[0 := Entry(0, 0), 17 := Entry(17, 17), 1 := Entry(1, 1)]

  /** The only chain positions of that bucket array. */
  lemma CollidingPositions(b: nat, j: nat)
    requires b < |CollidingChains| && j < |CollidingChains[b]|
    ensures (b == 0 && j <= 1) || (b == 1 && j == 0)
  {
  }

  /** That bucket array is a valid table state for the default hash. */
  lemma CollidingChainsValid()
    ensures Coupled(DefaultHash, CollidingChains, CollidingMap)
  {
    var bs := CollidingChains;
    var m := CollidingMap;
    CollidingFirstChains();
    forall i | 2 <= i < 17 ensures ChainCoupled(DefaultHash, bs[i], i, 17, m) {
      assert bs[i] == [];
    }
    CollidingMapPlaced();
  }

  lemma CollidingFirstChains()
    ensures ChainCoupled(DefaultHash, CollidingChains[0], 0, 17, CollidingMap)
    ensures ChainCoupled(DefaultHash, CollidingChains[1], 1, 17, CollidingMap)
  {
    assert DefaultHash(0) == 0 && DefaultHash(17) == 17 && DefaultHash(1) == 1;
  }

  lemma CollidingMapPlaced()
    ensures forall h :: h in CollidingMap ==>
      DefaultHash(CollidingMap[h].key) == h && CollidingMap[h] in CollidingChains[h % 17]
  {
    assert CollidingMap.Keys == {0, 17, 1};
    assert CollidingChains[0][0] == CollidingMap[0] && CollidingChains[0][1] == CollidingMap[17];
    assert CollidingChains[1][0] == CollidingMap[1];
  }

  /** The table holds three entries. */
  lemma CollidingSize()
    ensures |Flatten(CollidingChains)| == 3
  {
    var bs := CollidingChains;
    FlattenSnoc(bs, 0);
    FlattenSnoc(bs, 1);
    assert bs[..0] == [];
    FlattenTailEmpty(bs, 2);
  }

  /** Appending empty chains does not change the enumeration. */
  lemma {:induction false} FlattenTailEmpty<E>(bs: seq<seq<E>>, i: nat)
    requires i <= |bs| && forall k :: i <= k < |bs| ==> bs[k] == []
    ensures Flatten(bs) == Flatten(bs[..i])
    decreases |bs| - i
  {
    if i < |bs| {
      FlattenSnoc(bs, i);
      FlattenTailEmpty(bs, i + 1);
      assert Flatten(bs[..i + 1]) == Flatten(bs[..i]);
    } else {
      FlattenWhole(bs);
    }
  }

  /** On that state the source's slot array loses the value of key 17:
      slot 1 ends up holding the value of key 1, no slot holds the value of
      key 17, and slot 2 (within the size of 3) is never written. */
  method CollisionCounterexample() returns (size: nat, written: map<nat, (nat, nat)>)
    ensures Coupled(DefaultHash, CollidingChains, CollidingMap)
    ensures size == 3
    ensures 1 in written && written[1] == (1, 0)
    ensures forall s :: s in written ==> written[s] != (0, 1)
    ensures 2 !in written
  {
    CollidingChainsValid();
    CollidingSize();
    var bs := CollidingChains;
    size := 0;
    assert bs[..0] == [];
    for i := 0 to |bs|
      invariant size == |Flatten(bs[..i])|
    {
      FlattenSnoc(bs, i);
      size := size + |bs[i]|;
    }
    FlattenWhole(bs);
    written := ValuesArrAsWritten(bs);
    assert SlotAsWritten(1, 0) == 1 && SlotAsWritten(0, 1) == 1;
    forall s | s in written ensures s <= 1 && written[s] != (0, 1) {
      CollidingPositions(written[s].0, written[s].1);
    }
  }
}
