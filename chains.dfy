/** One bucket's collision chain. In the C code a chain is a sentinel head
    node followed by singly linked entries; here it is the sequence of the
    real entries (the sentinel is not represented). A pointer to the
    predecessor node becomes an index p: the predecessor is entry p - 1, or
    the sentinel when p == 0, and the node after it is entry p. */
module Chains {

  datatype Option<T> = None | Some(value: T)

  /** A stored key-value pair. */
  datatype Entry<K, V> = Entry(key: K, value: V)

  /** Entries appear in strictly ascending order of key hash. */
  ghost predicate Sorted<K, V>(hash: K -> nat, c: seq<Entry<K, V>>)
  {
    forall a, b :: 0 <= a < b < |c| ==> hash(c[a].key) < hash(c[b].key)
  }

  /** Every entry of the chain belongs in bucket i of n. */
  ghost predicate InBucket<K, V>(hash: K -> nat, c: seq<Entry<K, V>>, i: nat, n: nat)
  {
    n > 0 && forall k :: 0 <= k < |c| ==> hash(c[k].key) % n == i
  }

  /** p is where the predecessor search for hash h stops: every entry before
      p hashes below h, and the entry at p (if any) does not. */
  ghost predicate IsSplicePoint<K, V>(hash: K -> nat, c: seq<Entry<K, V>>, h: nat, p: nat)
  {
    && p <= |c|
    && (forall k :: 0 <= k < p ==> hash(c[k].key) < h)
    && (p < |c| ==> hash(c[p].key) >= h)
  }

  /** The predecessor search: walk the chain while entries hash below h.
      On a sorted chain the predecessor (entry p - 1, or the sentinel) is the
      last entry whose hash is strictly below h. */
  method FindPreviousEntryForKey<K, V>(hash: K -> nat, c: seq<Entry<K, V>>, h: nat) returns (p: nat)
    ensures IsSplicePoint(hash, c, h, p)
    ensures Sorted(hash, c) ==> forall k :: p <= k < |c| ==> hash(c[k].key) >= h
  {
    p := 0;
    while p < |c|
      invariant p <= |c|
      invariant forall k :: 0 <= k < p ==> hash(c[k].key) < h
    {
      if hash(c[p].key) >= h {
        break;
      }
      p := p + 1;
    }
  }

  /** On a sorted chain, an entry with hash h can only sit at the splice
      point for h. */
  lemma SplicePointLocates<K, V>(hash: K -> nat, c: seq<Entry<K, V>>, h: nat, p: nat, q: nat)
    requires Sorted(hash, c) && IsSplicePoint(hash, c, h, p)
    requires q < |c| && hash(c[q].key) == h
    ensures p == q
  {
  }

  /** Splicing a new entry in at its splice point keeps the chain sorted,
      as long as no entry already has its hash. */
  lemma SpliceSorted<K, V>(hash: K -> nat, c: seq<Entry<K, V>>, p: nat, e: Entry<K, V>)
    requires Sorted(hash, c) && IsSplicePoint(hash, c, hash(e.key), p)
    requires p < |c| ==> hash(c[p].key) != hash(e.key)
    ensures Sorted(hash, c[..p] + [e] + c[p..])
  {
    var d := c[..p] + [e] + c[p..];
    assert forall k :: 0 <= k < p ==> d[k] == c[k];
    assert d[p] == e;
    assert forall k :: p < k < |d| ==> d[k] == c[k - 1];
    forall a, b | 0 <= a < b < |d| ensures hash(d[a].key) < hash(d[b].key) {
      if b == p {
      } else if a == p {
        assert hash(c[p].key) <= hash(c[b - 1].key);
      } else if a < p && p < b {
      }
    }
  }

  /** Dropping one entry keeps the chain sorted. */
  lemma UnlinkSorted<K, V>(hash: K -> nat, c: seq<Entry<K, V>>, p: nat)
    requires Sorted(hash, c) && p < |c|
    ensures Sorted(hash, c[..p] + c[p + 1..])
  {
    var d := c[..p] + c[p + 1..];
    assert forall k :: 0 <= k < |d| ==> d[k] == if k < p then c[k] else c[k + 1];
  }

  /** Reference definition of unlinking: the chain with every entry of hash
      h left out, the others in their original order. */
  ghost function WithoutHash<K, V>(hash: K -> nat, c: seq<Entry<K, V>>, h: nat): (r: seq<Entry<K, V>>)
    ensures |r| <= |c|
    ensures forall k :: 0 <= k < |r| ==> r[k] in c && hash(r[k].key) != h
    ensures forall k :: 0 <= k < |c| && hash(c[k].key) != h ==> c[k] in r
    decreases |c|
  {
    if |c| == 0 then []
    else if hash(c[0].key) == h then WithoutHash(hash, c[1..], h)
    else [c[0]] + WithoutHash(hash, c[1..], h)
  }

  /** A chain with no entry of hash h loses nothing. */
  lemma {:induction false} WithoutAbsentHash<K, V>(hash: K -> nat, c: seq<Entry<K, V>>, h: nat)
    requires forall k :: 0 <= k < |c| ==> hash(c[k].key) != h
    ensures WithoutHash(hash, c, h) == c
    decreases |c|
  {
    if |c| > 0 {
      WithoutAbsentHash(hash, c[1..], h);
      assert [c[0]] + c[1..] == c;
    }
  }

  /** Unlinking the entry right after the predecessor removes exactly the
      entries of hash h and keeps the order of the rest. */
  lemma {:induction false} UnlinkIsWithoutHash<K, V>(hash: K -> nat, c: seq<Entry<K, V>>, p: nat)
    requires Sorted(hash, c) && p < |c|
    ensures c[..p] + c[p + 1..] == WithoutHash(hash, c, hash(c[p].key))
    decreases p
  {
    var h := hash(c[p].key);
    SortedTail(hash, c);
    if p == 0 {
      WithoutAbsentHash(hash, c[1..], h);
      assert c[..0] + c[1..] == c[1..];
    } else {
      var t := c[1..];
      assert t[p - 1] == c[p];
      UnlinkIsWithoutHash(hash, t, p - 1);
      WithoutHashCons(hash, c, h);
      UnlinkCons(c, p);
    }
  }

  /** The tail of a sorted chain is sorted, and hashes above its head. */
  lemma SortedTail<K, V>(hash: K -> nat, c: seq<Entry<K, V>>)
    requires Sorted(hash, c) && |c| > 0
    ensures Sorted(hash, c[1..])
    ensures forall k :: 0 <= k < |c[1..]| ==> hash(c[1..][k].key) != hash(c[0].key)
  {
    var t := c[1..];
    forall a, b | 0 <= a < b < |t| ensures hash(t[a].key) < hash(t[b].key) {
      assert t[a] == c[a + 1] && t[b] == c[b + 1];
    }
  }

  lemma WithoutHashCons<K, V>(hash: K -> nat, c: seq<Entry<K, V>>, h: nat)
    requires |c| > 0 && hash(c[0].key) != h
    ensures WithoutHash(hash, c, h) == [c[0]] + WithoutHash(hash, c[1..], h)
  {
  }

  lemma UnlinkCons<E>(c: seq<E>, p: nat)
    requires 0 < p < |c|
    ensures c[..p] + c[p + 1..] == [c[0]] + (c[1..][..p - 1] + c[1..][p..])
  {
    assert c[..p] == [c[0]] + c[1..][..p - 1];
    assert c[p + 1..] == c[1..][p..];
  }
}
