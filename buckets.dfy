/** The bucket array as a whole: its enumeration order, and the coupling
    between the chains and the abstract map from key hash to entry that the
    table represents. All lemmas here are about values; the table class
    applies them to `buckets[..]`. */
module Buckets {
  import opened Chains

  /** All entries in enumeration order: bucket index ascending, then chain
      order. This is the order in which keys, values, all and any visit them. */
  ghost function Flatten<E>(s: seq<seq<E>>): seq<E>
  {
    if |s| == 0 then [] else Flatten(s[..|s| - 1]) + s[|s| - 1]
  }

  /** The set of key hashes occurring in a sequence of entries. */
  ghost function Hashes<K, V>(hash: K -> nat, s: seq<Entry<K, V>>): set<nat>
  {
    set k | 0 <= k < |s| :: hash(s[k].key)
  }

  /** The chains and the map agree: every chain is sorted and holds only
      entries of its own bucket, every chained entry is the map's entry for
      its hash, and every mapped entry is chained in bucket `hash % n`. */
  ghost predicate Coupled<K, V>(hash: K -> nat, bs: seq<seq<Entry<K, V>>>, m: map<nat, Entry<K, V>>)
  {
    && |bs| > 0
    && (forall i :: 0 <= i < |bs| ==> ChainCoupled(hash, bs[i], i, |bs|, m))
    && (forall h :: h in m ==> hash(m[h].key) == h && m[h] in bs[h % |bs|])
  }

  /** Chain c is sorted, holds only entries of bucket i of n, and each of
      its entries is the map's entry for its hash. */
  ghost predicate ChainCoupled<K, V>(hash: K -> nat, c: seq<Entry<K, V>>, i: nat, n: nat, m: map<nat, Entry<K, V>>)
  {
    && Sorted(hash, c)
    && InBucket(hash, c, i, n)
    && forall k :: 0 <= k < |c| ==> hash(c[k].key) in m && m[hash(c[k].key)] == c[k]
  }

  // ---------------------------------------------------------------- Flatten

  lemma FlattenSnoc<E>(s: seq<seq<E>>, i: nat)
    requires i < |s|
    ensures Flatten(s[..i + 1]) == Flatten(s[..i]) + s[i]
  {
    assert s[..i + 1][..i] == s[..i];
  }

  lemma FlattenWhole<E>(s: seq<seq<E>>)
    ensures Flatten(s[..|s|]) == Flatten(s)
  {
    assert s[..|s|] == s;
  }

  /** Replacing one chain changes the total length by the difference. */
  lemma {:induction false} FlattenUpdateLength<E>(s: seq<seq<E>>, i: nat, c: seq<E>)
    requires i < |s|
    ensures |Flatten(s[i := c])| == |Flatten(s)| - |s[i]| + |c|
    decreases |s|
  {
    var t := s[..|s| - 1];
    if i == |s| - 1 {
      assert s[i := c][..|s| - 1] == t;
    } else {
      assert s[i := c][..|s| - 1] == t[i := c];
      FlattenUpdateLength(t, i, c);
    }
  }

  /** Every chained entry shows up in the enumeration. */
  lemma {:induction false} FlattenMember<E>(s: seq<seq<E>>, i: nat, k: nat)
    requires i < |s| && k < |s[i]|
    ensures s[i][k] in Flatten(s)
    decreases |s|
  {
    if i < |s| - 1 {
      FlattenMember(s[..|s| - 1], i, k);
    }
  }

  /** Every enumerated entry comes from some chain. */
  lemma {:induction false} FlattenSource<E>(s: seq<seq<E>>, k: nat) returns (i: nat, j: nat)
    requires k < |Flatten(s)|
    ensures i < |s| && j < |s[i]| && s[i][j] == Flatten(s)[k]
    decreases |s|
  {
    var t := s[..|s| - 1];
    if k < |Flatten(t)| {
      i, j := FlattenSource(t, k);
    } else {
      i, j := |s| - 1, k - |Flatten(t)|;
    }
  }

  lemma {:induction false} FlattenAllEmpty<E>(s: seq<seq<E>>)
    requires forall i :: 0 <= i < |s| ==> s[i] == []
    ensures Flatten(s) == []
    decreases |s|
  {
    if |s| > 0 {
      FlattenAllEmpty(s[..|s| - 1]);
    }
  }

  /** The enumeration index of the first entry of bucket b: the number of
      entries in the buckets before it. */
  ghost function Offset<E>(s: seq<seq<E>>, b: nat): nat
    requires b <= |s|
  {
    |Flatten(s[..b])|
  }

  lemma OffsetStep<E>(s: seq<seq<E>>, b: nat)
    requires b < |s|
    ensures Offset(s, b + 1) == Offset(s, b) + |s[b]|
  {
    FlattenSnoc(s, b);
  }

  lemma {:induction false} OffsetMono<E>(s: seq<seq<E>>, b: nat, b': nat)
    requires b <= b' <= |s|
    ensures Offset(s, b) <= Offset(s, b')
    decreases b' - b
  {
    if b < b' {
      OffsetStep(s, b);
      OffsetMono(s, b + 1, b');
    }
  }

  /** Entry j of bucket b is enumerated at index Offset(s, b) + j. */
  lemma {:induction false} OffsetAt<E>(s: seq<seq<E>>, b: nat, j: nat)
    requires b < |s| && j < |s[b]|
    ensures Offset(s, b) + j < |Flatten(s)|
    ensures Flatten(s)[Offset(s, b) + j] == s[b][j]
    decreases |s|
  {
    var t := s[..|s| - 1];
    if b == |s| - 1 {
      assert s[..b] == t;
    } else {
      assert t[..b] == s[..b];
      OffsetAt(t, b, j);
    }
  }

  /** Distinct chain positions have distinct enumeration indices. */
  lemma OffsetOrder<E>(s: seq<seq<E>>, b: nat, j: nat, b': nat, j': nat)
    requires b < |s| && j < |s[b]| && b' < |s| && j' < |s[b']|
    ensures Offset(s, b) + j == Offset(s, b') + j' <==> b == b' && j == j'
  {
    if b < b' {
      OffsetStep(s, b);
      OffsetMono(s, b + 1, b');
    } else if b' < b {
      OffsetStep(s, b');
      OffsetMono(s, b' + 1, b);
    }
  }

  /** In a bucket array whose chains are sorted and correctly placed, the
      enumeration visits buckets below |s| only and never repeats a hash. */
  lemma {:induction false} FlattenDistinct<K, V>(hash: K -> nat, s: seq<seq<Entry<K, V>>>, n: nat)
    requires forall i :: 0 <= i < |s| ==> Sorted(hash, s[i]) && InBucket(hash, s[i], i, n)
    ensures n > 0 || |Flatten(s)| == 0
    ensures forall k :: 0 <= k < |Flatten(s)| ==> hash(Flatten(s)[k].key) % n < |s|
    ensures forall a, b :: 0 <= a < b < |Flatten(s)| ==> hash(Flatten(s)[a].key) != hash(Flatten(s)[b].key)
    decreases |s|
  {
    if |s| > 0 {
      var t := s[..|s| - 1];
      var c := s[|s| - 1];
      FlattenDistinct(hash, t, n);
      var f := Flatten(t);
      assert Flatten(s) == f + c;
      assert forall k :: |f| <= k < |f| + |c| ==> Flatten(s)[k] == c[k - |f|];
    }
  }

  lemma HashesSnoc<K, V>(hash: K -> nat, s: seq<Entry<K, V>>, e: Entry<K, V>)
    ensures Hashes(hash, s + [e]) == Hashes(hash, s) + {hash(e.key)}
  {
    var t := s + [e];
    assert forall k :: 0 <= k < |s| ==> t[k] == s[k];
    assert t[|s|] == e;
  }

  /** Distinct hashes: as many hashes as entries. */
  lemma {:induction false} HashesCount<K, V>(hash: K -> nat, s: seq<Entry<K, V>>)
    requires forall a, b :: 0 <= a < b < |s| ==> hash(s[a].key) != hash(s[b].key)
    ensures |Hashes(hash, s)| == |s|
    decreases |s|
  {
    if |s| > 0 {
      var t := s[..|s| - 1];
      HashesCount(hash, t);
      assert t + [s[|s| - 1]] == s;
      HashesSnoc(hash, t, s[|s| - 1]);
      assert hash(s[|s| - 1].key) !in Hashes(hash, t);
    }
  }

  // ------------------------------------------------------------ the coupling

  /** The map view is exactly what the enumeration visits, each hash once. */
  lemma CoupledEntries<K, V>(hash: K -> nat, bs: seq<seq<Entry<K, V>>>, m: map<nat, Entry<K, V>>)
    requires Coupled(hash, bs, m)
    ensures forall k :: 0 <= k < |Flatten(bs)| ==>
      hash(Flatten(bs)[k].key) in m && m[hash(Flatten(bs)[k].key)] == Flatten(bs)[k]
    ensures forall h :: h in m ==> m[h] in Flatten(bs)
    ensures forall a, b :: 0 <= a < b < |Flatten(bs)| ==> hash(Flatten(bs)[a].key) != hash(Flatten(bs)[b].key)
    ensures m.Keys == Hashes(hash, Flatten(bs))
  {
    var f := Flatten(bs);
    FlattenDistinct(hash, bs, |bs|);
    forall k | 0 <= k < |f| ensures hash(f[k].key) in m && m[hash(f[k].key)] == f[k] {
      var i, j := FlattenSource(bs, k);
    }
    forall h | h in m ensures m[h] in f {
      var c := bs[h % |bs|];
      var j :| 0 <= j < |c| && c[j] == m[h];
      FlattenMember(bs, h % |bs|, j);
    }
    forall h | h in m ensures h in Hashes(hash, f) {
      var k :| 0 <= k < |f| && f[k] == m[h];
    }
  }

  /** The number of enumerated entries is the number of mappings. */
  lemma CoupledCount<K, V>(hash: K -> nat, bs: seq<seq<Entry<K, V>>>, m: map<nat, Entry<K, V>>)
    requires Coupled(hash, bs, m)
    ensures |Flatten(bs)| == |m|
  {
    CoupledEntries(hash, bs, m);
    HashesCount(hash, Flatten(bs));
    assert |m| == |m.Keys|;
  }

  /** The entry right after the predecessor is the mapped entry for h, if
      there is one: a hash is mapped iff the splice point holds it. */
  lemma CoupledLocate<K, V>(hash: K -> nat, bs: seq<seq<Entry<K, V>>>, m: map<nat, Entry<K, V>>, h: nat, p: nat)
    requires Coupled(hash, bs, m) && IsSplicePoint(hash, bs[h % |bs|], h, p)
    ensures h in m <==> p < |bs[h % |bs|]| && hash(bs[h % |bs|][p].key) == h
    ensures h in m ==> bs[h % |bs|][p] == m[h]
  {
    var c := bs[h % |bs|];
    if h in m {
      var q :| 0 <= q < |c| && c[q] == m[h];
      SplicePointLocates(hash, c, h, p, q);
    }
  }

  /** Replacing chain b by d keeps the coupling when d is coupled to the new
      map, the new map agrees with the old one outside bucket b, and every
      new mapping in bucket b is chained in d. */
  lemma CoupledReplace<K, V>(hash: K -> nat, bs: seq<seq<Entry<K, V>>>, m: map<nat, Entry<K, V>>,
                             b: nat, d: seq<Entry<K, V>>, m': map<nat, Entry<K, V>>)
    requires Coupled(hash, bs, m) && b < |bs|
    requires ChainCoupled(hash, d, b, |bs|, m')
    requires forall x :: x in m && x % |bs| != b ==> x in m' && m'[x] == m[x]
    requires forall x :: x in m' && x % |bs| != b ==> x in m
    requires BucketPlaced(hash, d, b, |bs|, m')
    ensures Coupled(hash, bs[b := d], m')
  {
    var n := |bs|;
    var bs' := bs[b := d];
    forall i | 0 <= i < n ensures ChainCoupled(hash, bs'[i], i, n, m') {
      if i != b {
        var c := bs[i];
        assert ChainCoupled(hash, c, i, n, m);
        forall k | 0 <= k < |c| ensures hash(c[k].key) in m' && m'[hash(c[k].key)] == c[k] {
          assert hash(c[k].key) % n == i;
        }
      }
    }
    forall x | x in m' ensures hash(m'[x].key) == x && m'[x] in bs'[x % n] {
      if x % n != b {
        assert x in m;
      }
    }
  }

  /** Every mapping whose hash falls in bucket b of n is chained in c. */
  ghost predicate BucketPlaced<K, V>(hash: K -> nat, c: seq<Entry<K, V>>, b: nat, n: nat, m: map<nat, Entry<K, V>>)
  {
    n > 0 && forall x :: x in m && x % n == b ==> hash(m[x].key) == x && m[x] in c
  }

  lemma CoupledBucket<K, V>(hash: K -> nat, bs: seq<seq<Entry<K, V>>>, m: map<nat, Entry<K, V>>, b: nat)
    requires Coupled(hash, bs, m) && b < |bs|
    ensures ChainCoupled(hash, bs[b], b, |bs|, m) && BucketPlaced(hash, bs[b], b, |bs|, m)
  {
  }

  lemma ChainSplice<K, V>(hash: K -> nat, c: seq<Entry<K, V>>, b: nat, n: nat, m: map<nat, Entry<K, V>>, p: nat, e: Entry<K, V>)
    requires ChainCoupled(hash, c, b, n, m) && BucketPlaced(hash, c, b, n, m)
    requires hash(e.key) !in m && hash(e.key) % n == b && IsSplicePoint(hash, c, hash(e.key), p)
    ensures ChainCoupled(hash, c[..p] + [e] + c[p..], b, n, m[hash(e.key) := e])
    ensures BucketPlaced(hash, c[..p] + [e] + c[p..], b, n, m[hash(e.key) := e])
  {
    ChainSpliceCoupled(hash, c, b, n, m, p, e);
    ChainSplicePlaced(hash, c, b, n, m, p, e);
  }

  lemma ChainSpliceCoupled<K, V>(hash: K -> nat, c: seq<Entry<K, V>>, b: nat, n: nat, m: map<nat, Entry<K, V>>, p: nat, e: Entry<K, V>)
    requires ChainCoupled(hash, c, b, n, m)
    requires hash(e.key) !in m && hash(e.key) % n == b && IsSplicePoint(hash, c, hash(e.key), p)
    ensures ChainCoupled(hash, c[..p] + [e] + c[p..], b, n, m[hash(e.key) := e])
  {
    var h := hash(e.key);
    var d: seq<Entry<K, V>> := c[..p] + [e] + c[p..];
    var m' := m[h := e];
    assert p < |c| ==> hash(c[p].key) != h;
    SpliceSorted(hash, c, p, e);
    forall k | 0 <= k < |d| ensures hash(d[k].key) % n == b && hash(d[k].key) in m' && m'[hash(d[k].key)] == d[k] {
      if k < p {
        assert d[k] == c[k];
      } else if p < k {
        assert d[k] == c[k - 1];
      }
    }
  }

  lemma ChainSplicePlaced<K, V>(hash: K -> nat, c: seq<Entry<K, V>>, b: nat, n: nat, m: map<nat, Entry<K, V>>, p: nat, e: Entry<K, V>)
    requires BucketPlaced(hash, c, b, n, m)
    requires hash(e.key) % n == b && p <= |c|
    ensures BucketPlaced(hash, c[..p] + [e] + c[p..], b, n, m[hash(e.key) := e])
  {
    var h := hash(e.key);
    var d: seq<Entry<K, V>> := c[..p] + [e] + c[p..];
    var m' := m[h := e];
    forall x | x in m' && x % n == b ensures hash(m'[x].key) == x && m'[x] in d {
      if x != h {
        var j :| 0 <= j < |c| && c[j] == m[x];
        if j < p {
          assert d[j] == c[j];
        } else {
          assert d[j + 1] == c[j];
        }
      } else {
        assert d[p] == e;
      }
    }
  }

  lemma ChainOverwrite<K, V>(hash: K -> nat, c: seq<Entry<K, V>>, b: nat, n: nat, m: map<nat, Entry<K, V>>, p: nat, v: V)
    requires ChainCoupled(hash, c, b, n, m) && BucketPlaced(hash, c, b, n, m) && p < |c|
    ensures hash(c[p].key) in m && m[hash(c[p].key)] == c[p]
    ensures ChainCoupled(hash, c[p := Entry(c[p].key, v)], b, n, m[hash(c[p].key) := Entry(c[p].key, v)])
    ensures BucketPlaced(hash, c[p := Entry(c[p].key, v)], b, n, m[hash(c[p].key) := Entry(c[p].key, v)])
  {
    var h := hash(c[p].key);
    var d := c[p := Entry(c[p].key, v)];
    var m' := m[h := Entry(c[p].key, v)];
    assert Sorted(hash, d);
    forall k | 0 <= k < |d| ensures hash(d[k].key) % n == b && hash(d[k].key) in m' && m'[hash(d[k].key)] == d[k] {
      if k != p {
        assert hash(c[k].key) != h;
      }
    }
    forall x | x in m' && x % n == b ensures hash(m'[x].key) == x && m'[x] in d {
      if x != h {
        var j :| 0 <= j < |c| && c[j] == m[x];
        assert j != p;
        assert d[j] == m[x];
      } else {
        assert d[p] == m'[x];
      }
    }
  }

  lemma ChainUnlink<K, V>(hash: K -> nat, c: seq<Entry<K, V>>, b: nat, n: nat, m: map<nat, Entry<K, V>>, p: nat)
    requires ChainCoupled(hash, c, b, n, m) && BucketPlaced(hash, c, b, n, m) && p < |c|
    ensures ChainCoupled(hash, c[..p] + c[p + 1..], b, n, m - {hash(c[p].key)})
    ensures BucketPlaced(hash, c[..p] + c[p + 1..], b, n, m - {hash(c[p].key)})
  {
    ChainUnlinkCoupled(hash, c, b, n, m, p);
    ChainUnlinkPlaced(hash, c, b, n, m, p);
  }

  lemma ChainUnlinkCoupled<K, V>(hash: K -> nat, c: seq<Entry<K, V>>, b: nat, n: nat, m: map<nat, Entry<K, V>>, p: nat)
    requires ChainCoupled(hash, c, b, n, m) && p < |c|
    ensures ChainCoupled(hash, c[..p] + c[p + 1..], b, n, m - {hash(c[p].key)})
  {
    var h := hash(c[p].key);
    var d: seq<Entry<K, V>> := c[..p] + c[p + 1..];
    var m' := m - {h};
    UnlinkSorted(hash, c, p);
    forall k | 0 <= k < |d| ensures hash(d[k].key) % n == b && hash(d[k].key) in m' && m'[hash(d[k].key)] == d[k] {
      var j := if k < p then k else k + 1;
      assert d[k] == c[j];
      assert hash(c[j].key) != h;
    }
  }

  lemma ChainUnlinkPlaced<K, V>(hash: K -> nat, c: seq<Entry<K, V>>, b: nat, n: nat, m: map<nat, Entry<K, V>>, p: nat)
    requires BucketPlaced(hash, c, b, n, m) && p < |c| && hash(c[p].key) in m && m[hash(c[p].key)] == c[p]
    ensures BucketPlaced(hash, c[..p] + c[p + 1..], b, n, m - {hash(c[p].key)})
  {
    var h := hash(c[p].key);
    var d: seq<Entry<K, V>> := c[..p] + c[p + 1..];
    var m' := m - {h};
    forall x | x in m' && x % n == b ensures hash(m'[x].key) == x && m'[x] in d {
      var j :| 0 <= j < |c| && c[j] == m[x];
      assert j != p;
      assert d[if j < p then j else j - 1] == c[j];
    }
  }

  /** Splicing a fresh entry in at its splice point adds exactly its mapping. */
  lemma CoupledSplice<K, V>(hash: K -> nat, bs: seq<seq<Entry<K, V>>>, m: map<nat, Entry<K, V>>, p: nat, e: Entry<K, V>)
    requires Coupled(hash, bs, m) && hash(e.key) !in m
    requires IsSplicePoint(hash, bs[hash(e.key) % |bs|], hash(e.key), p)
    ensures var b := hash(e.key) % |bs|;
      Coupled(hash, bs[b := bs[b][..p] + [e] + bs[b][p..]], m[hash(e.key) := e])
    ensures var b := hash(e.key) % |bs|;
      |Flatten(bs[b := bs[b][..p] + [e] + bs[b][p..]])| == |Flatten(bs)| + 1
  {
    var b := hash(e.key) % |bs|;
    var c := bs[b];
    CoupledBucket(hash, bs, m, b);
    ChainSplice(hash, c, b, |bs|, m, p, e);
    CoupledReplace(hash, bs, m, b, c[..p] + [e] + c[p..], m[hash(e.key) := e]);
    FlattenUpdateLength(bs, b, c[..p] + [e] + c[p..]);
  }

  /** Overwriting the value of the entry right after the predecessor
      replaces that mapping's value and keeps its stored key. */
  lemma CoupledOverwrite<K, V>(hash: K -> nat, bs: seq<seq<Entry<K, V>>>, m: map<nat, Entry<K, V>>, h: nat, p: nat, v: V)
    requires Coupled(hash, bs, m)
    requires p < |bs[h % |bs|]| && hash(bs[h % |bs|][p].key) == h
    ensures h in m && m[h] == bs[h % |bs|][p]
    ensures var b := h % |bs|;
      Coupled(hash, bs[b := bs[b][p := Entry(bs[b][p].key, v)]], m[h := Entry(m[h].key, v)])
    ensures var b := h % |bs|;
      |Flatten(bs[b := bs[b][p := Entry(bs[b][p].key, v)]])| == |Flatten(bs)|
  {
    var b := h % |bs|;
    var c := bs[b];
    CoupledBucket(hash, bs, m, b);
    ChainOverwrite(hash, c, b, |bs|, m, p, v);
    CoupledReplace(hash, bs, m, b, c[p := Entry(c[p].key, v)], m[h := Entry(c[p].key, v)]);
    FlattenUpdateLength(bs, b, c[p := Entry(c[p].key, v)]);
  }

  /** Unlinking the entry right after the predecessor removes exactly its
      mapping. */
  lemma CoupledUnlink<K, V>(hash: K -> nat, bs: seq<seq<Entry<K, V>>>, m: map<nat, Entry<K, V>>, h: nat, p: nat)
    requires Coupled(hash, bs, m)
    requires p < |bs[h % |bs|]| && hash(bs[h % |bs|][p].key) == h
    ensures var b := h % |bs|;
      Coupled(hash, bs[b := bs[b][..p] + bs[b][p + 1..]], m - {h})
    ensures var b := h % |bs|;
      |Flatten(bs[b := bs[b][..p] + bs[b][p + 1..]])| == |Flatten(bs)| - 1
  {
    var b := h % |bs|;
    var c := bs[b];
    CoupledBucket(hash, bs, m, b);
    ChainUnlink(hash, c, b, |bs|, m, p);
    CoupledReplace(hash, bs, m, b, c[..p] + c[p + 1..], m - {h});
    FlattenUpdateLength(bs, b, c[..p] + c[p + 1..]);
  }

  /** Emptying every chain leaves nothing mapped. */
  lemma CoupledEmpty<K, V>(hash: K -> nat, bs: seq<seq<Entry<K, V>>>)
    requires |bs| > 0 && forall i :: 0 <= i < |bs| ==> bs[i] == []
    ensures Coupled(hash, bs, map[]) && Flatten(bs) == []
  {
    FlattenAllEmpty(bs);
  }

  // ------------------------------------------------------------------ rehash

  /** One rehash step: when entries of the old buckets before (i, j) have
      been moved into the new array, the entry at (i, j) is not there yet
      and is the old map's entry for its hash. */
  lemma RehashFresh<K, V>(hash: K -> nat, src: seq<seq<Entry<K, V>>>, m: map<nat, Entry<K, V>>,
                          done: map<nat, Entry<K, V>>, i: nat, j: nat)
    requires Coupled(hash, src, m) && i < |src| && j < |src[i]|
    requires done.Keys == Hashes(hash, Flatten(src[..i]) + src[i][..j])
    ensures hash(src[i][j].key) !in done
    ensures hash(src[i][j].key) in m && m[hash(src[i][j].key)] == src[i][j]
    ensures Hashes(hash, Flatten(src[..i]) + src[i][..j + 1]) == done.Keys + {hash(src[i][j].key)}
  {
    var c := src[i];
    var h := hash(c[j].key);
    var n := |src|;
    var f := Flatten(src[..i]);
    assert ChainCoupled(hash, c, i, n, m);
    FlattenDistinct(hash, src[..i], n);
    var s := f + c[..j];
    assert forall k :: 0 <= k < |s| ==> hash(s[k].key) != h by {
      forall k | 0 <= k < |s| ensures hash(s[k].key) != h {
        if k < |f| {
          assert hash(f[k].key) % n < i;
        } else {
          assert s[k] == c[k - |f|];
        }
      }
    }
    assert s + [c[j]] == f + c[..j + 1];
    HashesSnoc(hash, s, c[j]);
  }

  // ---------------------------------------------------------- bulk queries

  /** A property of every enumerated entry is a property of every mapping. */
  lemma CoupledAll<K, V>(hash: K -> nat, bs: seq<seq<Entry<K, V>>>, m: map<nat, Entry<K, V>>, q: Entry<K, V> -> bool)
    requires Coupled(hash, bs, m)
    ensures (forall k :: 0 <= k < |Flatten(bs)| ==> q(Flatten(bs)[k])) <==> (forall h :: h in m ==> q(m[h]))
  {
    CoupledEntries(hash, bs, m);
    var f := Flatten(bs);
    if forall k :: 0 <= k < |f| ==> q(f[k]) {
      forall h | h in m ensures q(m[h]) {
        var k :| 0 <= k < |f| && f[k] == m[h];
      }
    }
  }

  /** Some enumerated entry has a property iff some mapping has it. */
  lemma CoupledAny<K, V>(hash: K -> nat, bs: seq<seq<Entry<K, V>>>, m: map<nat, Entry<K, V>>, q: Entry<K, V> -> bool)
    requires Coupled(hash, bs, m)
    ensures (exists k :: 0 <= k < |Flatten(bs)| && q(Flatten(bs)[k])) <==> (exists h :: h in m && q(m[h]))
  {
    CoupledAll(hash, bs, m, e => !q(e));
  }

  // ------------------------------------------------------ transforming values

  /** An entry with its value transformed and its key untouched. */
  function Apply<K, V>(g: (K, V) -> V, e: Entry<K, V>): Entry<K, V>
  {
    Entry(e.key, g(e.key, e.value))
  }

  ghost function MapValues<K, V>(g: (K, V) -> V, c: seq<Entry<K, V>>): seq<Entry<K, V>>
  {
    seq(|c|, k requires 0 <= k < |c| => Apply(g, c[k]))
  }

  ghost function MapChains<K, V>(g: (K, V) -> V, bs: seq<seq<Entry<K, V>>>): seq<seq<Entry<K, V>>>
  {
    seq(|bs|, i requires 0 <= i < |bs| => MapValues(g, bs[i]))
  }

  ghost function MapMap<K, V>(g: (K, V) -> V, m: map<nat, Entry<K, V>>): map<nat, Entry<K, V>>
  {
    map h | h in m :: Apply(g, m[h])
  }

  /** Transforming every value chain by chain is transforming the
      enumeration entry by entry. */
  lemma {:induction false} FlattenMapValues<K, V>(g: (K, V) -> V, bs: seq<seq<Entry<K, V>>>)
    ensures Flatten(MapChains(g, bs)) == MapValues(g, Flatten(bs))
    decreases |bs|
  {
    if |bs| > 0 {
      var t := bs[..|bs| - 1];
      FlattenMapValues(g, t);
      assert MapChains(g, bs)[..|bs| - 1] == MapChains(g, t);
    }
  }

  /** The entries enumerated before index i have been transformed by g and
      the others are untouched; cur has the shape of bs. */
  ghost predicate AppliedBelow<K, V>(g: (K, V) -> V, bs: seq<seq<Entry<K, V>>>, cur: seq<seq<Entry<K, V>>>, i: nat)
  {
    && |cur| == |bs|
    && forall b :: 0 <= b < |bs| ==>
         (&& |cur[b]| == |bs[b]|
          && forall j :: 0 <= j < |bs[b]| ==>
               cur[b][j] == if Offset(bs, b) + j < i then Apply(g, bs[b][j]) else bs[b][j])
  }

  /** Transforming the entry with enumeration index i moves the frontier
      to i + 1. */
  lemma AppliedStep<K, V>(g: (K, V) -> V, bs: seq<seq<Entry<K, V>>>, cur: seq<seq<Entry<K, V>>>, i: nat, b: nat, j: nat)
    requires AppliedBelow(g, bs, cur, i)
    requires b < |bs| && j < |bs[b]| && Offset(bs, b) + j == i
    ensures cur[b][j] == bs[b][j]
    ensures AppliedBelow(g, bs, cur[b := cur[b][j := Apply(g, bs[b][j])]], i + 1)
  {
    var cur' := cur[b := cur[b][j := Apply(g, bs[b][j])]];
    forall b', j' | 0 <= b' < |bs| && 0 <= j' < |bs[b']|
      ensures cur'[b'][j'] == if Offset(bs, b') + j' < i + 1 then Apply(g, bs[b'][j']) else bs[b'][j']
    {
      OffsetOrder(bs, b, j, b', j');
    }
  }

  /** Once every enumerated entry is transformed, every chain is. */
  lemma AppliedAll<K, V>(g: (K, V) -> V, bs: seq<seq<Entry<K, V>>>, cur: seq<seq<Entry<K, V>>>)
    requires AppliedBelow(g, bs, cur, |Flatten(bs)|)
    ensures cur == MapChains(g, bs)
  {
    forall b | 0 <= b < |bs| ensures cur[b] == MapValues(g, bs[b]) {
      forall j | 0 <= j < |bs[b]| ensures cur[b][j] == Apply(g, bs[b][j]) {
        OffsetAt(bs, b, j);
      }
    }
  }

  /** Transforming values keeps the coupling: keys, hashes and chain
      positions do not move. */
  lemma CoupledApply<K, V>(hash: K -> nat, bs: seq<seq<Entry<K, V>>>, m: map<nat, Entry<K, V>>, g: (K, V) -> V)
    requires Coupled(hash, bs, m)
    ensures Coupled(hash, MapChains(g, bs), MapMap(g, m))
    ensures Flatten(MapChains(g, bs)) == MapValues(g, Flatten(bs))
  {
    var bs' := MapChains(g, bs);
    var m' := MapMap(g, m);
    var n := |bs|;
    forall i | 0 <= i < n ensures ChainCoupled(hash, bs'[i], i, n, m') {
      assert ChainCoupled(hash, bs[i], i, n, m);
    }
    forall h | h in m' ensures hash(m'[h].key) == h && m'[h] in bs'[h % n] {
      var c := bs[h % n];
      var j :| 0 <= j < |c| && c[j] == m[h];
      assert bs'[h % n][j] == m'[h];
    }
    FlattenMapValues(g, bs);
  }

  // ------------------------------------------------------------ enumeration

  ghost function KeysOf<K, V>(s: seq<Entry<K, V>>): (r: seq<K>)
    ensures |r| == |s| && forall k :: 0 <= k < |s| ==> r[k] == s[k].key
  {
    seq(|s|, k requires 0 <= k < |s| => s[k].key)
  }

  ghost function ValuesOf<K, V>(s: seq<Entry<K, V>>): (r: seq<V>)
    ensures |r| == |s| && forall k :: 0 <= k < |s| ==> r[k] == s[k].value
  {
    seq(|s|, k requires 0 <= k < |s| => s[k].value)
  }

  lemma KeysOfAppend<K, V>(s: seq<Entry<K, V>>, t: seq<Entry<K, V>>)
    ensures KeysOf(s + t) == KeysOf(s) + KeysOf(t)
  {
  }

  lemma ValuesOfAppend<K, V>(s: seq<Entry<K, V>>, t: seq<Entry<K, V>>)
    ensures ValuesOf(s + t) == ValuesOf(s) + ValuesOf(t)
  {
  }

  /** The enumerated keys hash to exactly the mapped hashes. */
  lemma EnumeratedKeys<K, V>(hash: K -> nat, bs: seq<seq<Entry<K, V>>>, m: map<nat, Entry<K, V>>, keys: seq<K>)
    requires Coupled(hash, bs, m) && keys == KeysOf(Flatten(bs))
    ensures forall h :: h in m <==> exists k :: 0 <= k < |keys| && hash(keys[k]) == h
  {
    var f := Flatten(bs);
    CoupledEntries(hash, bs, m);
    forall h | h in m ensures exists k :: 0 <= k < |keys| && hash(keys[k]) == h {
      var k :| 0 <= k < |f| && f[k] == m[h];
      assert hash(keys[k]) == h;
    }
  }

  /** Trying P on the enumerated keys and values position by position
      decides whether P holds for every mapping. */
  lemma EnumeratedAll<K, V, X>(hash: K -> nat, bs: seq<seq<Entry<K, V>>>, m: map<nat, Entry<K, V>>,
                               keys: seq<K>, values: seq<V>, P: (K, V, X) -> bool, x: X)
    requires Coupled(hash, bs, m) && keys == KeysOf(Flatten(bs)) && values == ValuesOf(Flatten(bs))
    ensures (forall k :: 0 <= k < |keys| ==> P(keys[k], values[k], x))
      <==> (forall h :: h in m ==> P(m[h].key, m[h].value, x))
  {
    var f := Flatten(bs);
    var q := (e: Entry<K, V>) => P(e.key, e.value, x);
    CoupledAll(hash, bs, m, q);
    assert forall k :: 0 <= k < |f| ==> (q(f[k]) <==> P(keys[k], values[k], x));
  }

  /** Trying P position by position decides whether some mapping satisfies P. */
  lemma EnumeratedAny<K, V, X>(hash: K -> nat, bs: seq<seq<Entry<K, V>>>, m: map<nat, Entry<K, V>>,
                               keys: seq<K>, values: seq<V>, P: (K, V, X) -> bool, x: X)
    requires Coupled(hash, bs, m) && keys == KeysOf(Flatten(bs)) && values == ValuesOf(Flatten(bs))
    ensures (exists k :: 0 <= k < |keys| && P(keys[k], values[k], x))
      <==> (exists h :: h in m && P(m[h].key, m[h].value, x))
  {
    EnumeratedAll(hash, bs, m, keys, values, (k: K, v: V, y: X) => !P(k, v, y), x);
  }
}
