/** The hash table object. Its bucket array is updated in place: each cell
    holds one collision chain, kept sorted by key hash, and the chain of
    bucket i holds exactly the entries whose hash is i modulo the bucket
    count. Two keys are the same key exactly when their hashes are equal.
    The ghost map Contents is the abstract view: hash to stored entry. */
module HashTable {
  import opened PrimeLibrary
  import opened Chains
  import opened Buckets

  /** The growth test made before every insert: the current load (entries
      per bucket) has reached the load factor. */
  predicate LoadReached(size: nat, noBuckets: nat, loadFactor: real)
    requires noBuckets > 0
  {
    size as real / noBuckets as real >= loadFactor
  }

  /** The bucket count a table has after the growth test. It only ever grows,
      stays in the library, and grows to the next library entry exactly when
      the load is reached and a larger entry exists. */
  function GrownBucketCount(size: nat, noBuckets: nat, loadFactor: real): (r: nat)
    requires noBuckets in Primes
    ensures r in Primes && noBuckets <= r
    ensures r != noBuckets <==> LoadReached(size, noBuckets, loadFactor) && noBuckets != LastPrime
    ensures r != noBuckets ==> forall q :: q in Primes && noBuckets < q ==> r <= q
  {
    PrimesAscending();
    if LoadReached(size, noBuckets, loadFactor) && NextPrime(noBuckets) != -1 then NextPrime(noBuckets)
    else noBuckets
  }

  /** The rehash: every entry of the chains of src, bucket by bucket and
      along each chain, is spliced into a fresh array of n buckets at its
      predecessor there. The same mappings come out as went in. */
  method Rehash<K, V>(hash: K -> nat, src: array<seq<Entry<K, V>>>, n: nat, ghost m: map<nat, Entry<K, V>>)
    returns (nb: array<seq<Entry<K, V>>>)
    requires n > 0 && Coupled(hash, src[..], m)
    ensures fresh(nb) && nb.Length == n
    ensures Coupled(hash, nb[..], m) && |Flatten(nb[..])| == |Flatten(src[..])|
  {
    nb := new seq<Entry<K, V>>[n];
    for i := 0 to n
      invariant forall k :: 0 <= k < i ==> nb[k] == []
    {
      nb[i] := [];
    }
    CoupledEmpty(hash, nb[..]);
    ghost var done: map<nat, Entry<K, V>> := map[];
    assert src[..][..0] == [];
    for i := 0 to src.Length
      invariant Coupled(hash, nb[..], done)
      invariant forall x :: x in done ==> x in m && done[x] == m[x]
      invariant done.Keys == Hashes(hash, Flatten(src[..][..i]))
      invariant |Flatten(nb[..])| == |Flatten(src[..][..i])|
    {
      done := MoveChain(hash, src[..], i, src[i], nb, m, done);
    }
    FlattenWhole(src[..]);
    CoupledEntries(hash, src[..], m);
    assert done == m;
  }

  /** Moves the entries of chain i of src, in chain order, into nb. */
  method MoveChain<K, V>(hash: K -> nat, ghost src: seq<seq<Entry<K, V>>>, i: nat, chain: seq<Entry<K, V>>,
                         nb: array<seq<Entry<K, V>>>, ghost m: map<nat, Entry<K, V>>, ghost done: map<nat, Entry<K, V>>)
    returns (ghost done': map<nat, Entry<K, V>>)
    requires Coupled(hash, src, m) && i < |src| && chain == src[i]
    requires Coupled(hash, nb[..], done)
    requires forall x :: x in done ==> x in m && done[x] == m[x]
    requires done.Keys == Hashes(hash, Flatten(src[..i]))
    requires |Flatten(nb[..])| == |Flatten(src[..i])|
    modifies nb
    ensures Coupled(hash, nb[..], done')
    ensures forall x :: x in done' ==> x in m && done'[x] == m[x]
    ensures done'.Keys == Hashes(hash, Flatten(src[..i + 1]))
    ensures |Flatten(nb[..])| == |Flatten(src[..i + 1])|
  {
    done' := done;
    var j := 0;
    assert chain[..0] == [] && Flatten(src[..i]) + chain[..0] == Flatten(src[..i]);
    while j < |chain|
      invariant j <= |chain|
      invariant Coupled(hash, nb[..], done')
      invariant forall x :: x in done' ==> x in m && done'[x] == m[x]
      invariant done'.Keys == Hashes(hash, Flatten(src[..i]) + chain[..j])
      invariant |Flatten(nb[..])| == |Flatten(src[..i])| + j
    {
      var e := chain[j];
      var h := hash(e.key);
      var b := h % nb.Length;
      RehashFresh(hash, src, m, done', i, j);
      var p := FindPreviousEntryForKey(hash, nb[b], h);
      CoupledSplice(hash, nb[..], done', p, e);
      nb[b] := nb[b][..p] + [e] + nb[b][p..];
      done' := done'[h := e];
      j := j + 1;
    }
    FlattenSnoc(src, i);
    assert chain[..|chain|] == chain;
  }

  /** The loop of apply_to_all: the k-th key and the value in slot k are
      passed to f, and f's result becomes the value at that slot's chain
      position. */
  method ApplySlots<K, V, X>(a: array<seq<Entry<K, V>>>, keys: seq<K>, slots: seq<(nat, nat)>,
                             f: (K, V, X) -> V, x: X, ghost B: seq<seq<Entry<K, V>>>, ghost g: (K, V) -> V)
    requires a[..] == B && |slots| == |Flatten(B)| && keys == KeysOf(Flatten(B))
    requires forall k, v :: g(k, v) == f(k, v, x)
    requires forall k :: 0 <= k < |slots| ==>
      slots[k].0 < |B| && slots[k].1 < |B[slots[k].0]| && Offset(B, slots[k].0) + slots[k].1 == k
    modifies a
    ensures a[..] == MapChains(g, B)
  {
    for i := 0 to |slots|
      invariant AppliedBelow(g, B, a[..], i)
    {
      var b, j := slots[i].0, slots[i].1;
      OffsetAt(B, b, j);
      AppliedStep(g, B, a[..], i, b, j);
      var e := a[b][j];
      a[b] := a[b][j := Entry(e.key, f(keys[i], e.value, x))];
    }
    AppliedAll(g, B, a[..]);
  }

  class Table<K, V> {
    var buckets: array<seq<Entry<K, V>>>
    var noBuckets: nat
    const loadFactor: real
    const hash: K -> nat
    const keyEquiv: (K, V, K) -> bool
    const valueEquiv: (K, V, V) -> bool
    var size: nat
    ghost var Contents: map<nat, Entry<K, V>>

    ghost predicate Valid()
      reads this, buckets
    {
      && buckets.Length == noBuckets
      && noBuckets in Primes
      && loadFactor > 0.0
      && Coupled(hash, buckets[..], Contents)
      && size == |Flatten(buckets[..])|
    }

    /** Every stored entry, bucket by bucket and along each chain: the order
        in which keys and values are enumerated. */
    ghost function Entries(): seq<Entry<K, V>>
      reads this, buckets
    {
      Flatten(buckets[..])
    }

    /** A table with n empty buckets. */
    constructor (n: nat, loadFactor: real, hash: K -> nat, keyEquiv: (K, V, K) -> bool, valueEquiv: (K, V, V) -> bool)
      requires n in Primes && loadFactor > 0.0
      ensures Valid() && fresh(buckets)
      ensures noBuckets == n && this.loadFactor == loadFactor && this.hash == hash
      ensures this.keyEquiv == keyEquiv && this.valueEquiv == valueEquiv
      ensures size == 0 && Contents == map[]
      ensures forall i :: 0 <= i < buckets.Length ==> buckets[i] == []
    {
      var a := new seq<Entry<K, V>>[n];
      for i := 0 to n
        invariant forall k :: 0 <= k < i ==> a[k] == []
      {
        a[i] := [];
      }
      buckets := a;
      noBuckets := n;
      this.loadFactor := loadFactor;
      this.hash := hash;
      this.keyEquiv := keyEquiv;
      this.valueEquiv := valueEquiv;
      size := 0;
      Contents := map[];
      new;
      CoupledEmpty(hash, buckets[..]);
    }

    /** Creation with a validated bucket count and load factor: no table
        unless the count is in the library and the load factor is positive. */
    static method CreateDynamic(n: nat, loadFactor: real, hash: K -> nat,
                                keyEquiv: (K, V, K) -> bool, valueEquiv: (K, V, V) -> bool)
      returns (t: Table?<K, V>)
      ensures t == null <==> n !in Primes || loadFactor <= 0.0
      ensures t != null ==> fresh(t) && fresh(t.buckets) && t.Valid()
      ensures t != null ==> t.noBuckets == n && t.loadFactor == loadFactor && t.hash == hash
      ensures t != null ==> t.keyEquiv == keyEquiv && t.valueEquiv == valueEquiv
      ensures t != null ==> t.size == 0 && t.Contents == map[]
    {
      var known := IsNumberInPrimeLibrary(n);
      if !known {
        return null;
      }
      if loadFactor <= 0.0 {
        return null;
      }
      t := new Table(n, loadFactor, hash, keyEquiv, valueEquiv);
    }

    /** Creation with 17 buckets and load factor 0.75; always succeeds. */
    static method Create(hash: K -> nat, keyEquiv: (K, V, K) -> bool, valueEquiv: (K, V, V) -> bool)
      returns (t: Table<K, V>)
      ensures fresh(t) && fresh(t.buckets) && t.Valid()
      ensures t.noBuckets == 17 && t.loadFactor == 0.75 && t.hash == hash
      ensures t.keyEquiv == keyEquiv && t.valueEquiv == valueEquiv
      ensures t.size == 0 && t.Contents == map[]
    {
      var r := CreateDynamic(17, 0.75, hash, keyEquiv, valueEquiv);
      t := r;
    }

    /** The number of entries, kept in a field rather than counted. */
    function Size(): (n: nat)
      reads this, buckets
      requires Valid()
      ensures n == |Contents| && n == |Entries()|
    {
      CoupledCount(hash, buckets[..], Contents);
      size
    }

    function IsEmpty(): (r: bool)
      reads this, buckets
      requires Valid()
      ensures r <==> Contents == map[]
    {
      Size() == 0
    }

    /** Lookup: walk the key's chain comparing hashes. */
    method Lookup(key: K) returns (result: Option<V>)
      requires Valid()
      ensures hash(key) in Contents <==> result.Some?
      ensures result.Some? ==> result.value == Contents[hash(key)].value
    {
      var h := hash(key);
      var b := h % noBuckets;
      var c := buckets[b];
      CoupledBucket(hash, buckets[..], Contents, b);
      var j := 0;
      while j < |c|
        invariant j <= |c|
        invariant forall k :: 0 <= k < j ==> hash(c[k].key) != h
      {
        if hash(c[j].key) == h {
          return Some(c[j].value);
        }
        j := j + 1;
      }
      return None;
    }

    /** Grows and rehashes when the load factor is reached and the library
        has a larger bucket count; otherwise nothing changes. Every entry is
        moved to the chain of its new bucket, spliced in at its predecessor. */
    method Resize()
      requires Valid()
      modifies this
      ensures Valid()
      ensures Contents == old(Contents) && size == old(size)
      ensures noBuckets == GrownBucketCount(old(size), old(noBuckets), loadFactor)
      ensures noBuckets == old(noBuckets) ==> buckets == old(buckets)
      ensures noBuckets != old(noBuckets) ==> fresh(buckets)
    {
      if LoadReached(size, noBuckets, loadFactor) {
        var newCount := GetNextPrimeNumber(noBuckets);
        if newCount != -1 {
          var nb := Rehash(hash, buckets, newCount, Contents);
          buckets := nb;
          noBuckets := newCount;
        }
      }
    }

    /** Insert after the growth test: overwrite the value when the key's hash
        is already present (the stored key is kept), otherwise splice a new
        entry in after its predecessor. */
    method Insert(key: K, value: V)
      requires Valid()
      modifies this, buckets
      ensures Valid()
      ensures hash(key) in old(Contents) ==>
        Contents == old(Contents)[hash(key) := Entry(old(Contents)[hash(key)].key, value)] && size == old(size)
      ensures hash(key) !in old(Contents) ==>
        Contents == old(Contents)[hash(key) := Entry(key, value)] && size == old(size) + 1
      ensures noBuckets == GrownBucketCount(old(size), old(noBuckets), loadFactor)
      ensures buckets == old(buckets) || fresh(buckets)
    {
      Resize();
      Place(key, value);
    }

    /** The insert proper, once the growth test is done: find the key's
        predecessor in its chain, then overwrite or splice. */
    method Place(key: K, value: V)
      requires Valid()
      modifies this, buckets
      ensures Valid() && buckets == old(buckets) && noBuckets == old(noBuckets)
      ensures hash(key) in old(Contents) ==>
        Contents == old(Contents)[hash(key) := Entry(old(Contents)[hash(key)].key, value)] && size == old(size)
      ensures hash(key) !in old(Contents) ==>
        Contents == old(Contents)[hash(key) := Entry(key, value)] && size == old(size) + 1
    {
      var h := hash(key);
      var b := h % noBuckets;
      var p := FindPreviousEntryForKey(hash, buckets[b], h);
      CoupledLocate(hash, buckets[..], Contents, h, p);
      if p < |buckets[b]| && hash(buckets[b][p].key) == h {
        OverwriteAt(h, p, value);
      } else {
        SpliceAt(p, Entry(key, value));
      }
    }

    /** The entry at position p of the chain for hash h has that hash: its
        value is replaced in place and its key kept. */
    method OverwriteAt(h: nat, p: nat, value: V)
      requires Valid()
      requires p < |buckets[h % noBuckets]| && hash(buckets[h % noBuckets][p].key) == h
      modifies this, buckets
      ensures Valid() && buckets == old(buckets) && noBuckets == old(noBuckets) && size == old(size)
      ensures h in old(Contents) && Contents == old(Contents)[h := Entry(old(Contents)[h].key, value)]
    {
      var b := h % noBuckets;
      var c := buckets[b];
      CoupledOverwrite(hash, buckets[..], Contents, h, p, value);
      buckets[b] := c[p := Entry(c[p].key, value)];
      Contents := Contents[h := Entry(Contents[h].key, value)];
    }

    /** No entry has e's hash and p is its splice point: a new entry is
        linked in after the predecessor. */
    method SpliceAt(p: nat, e: Entry<K, V>)
      requires Valid() && hash(e.key) !in Contents
      requires IsSplicePoint(hash, buckets[hash(e.key) % noBuckets], hash(e.key), p)
      modifies this, buckets
      ensures Valid() && buckets == old(buckets) && noBuckets == old(noBuckets) && size == old(size) + 1
      ensures Contents == old(Contents)[hash(e.key) := e]
    {
      var b := hash(e.key) % noBuckets;
      var c := buckets[b];
      CoupledSplice(hash, buckets[..], Contents, p, e);
      buckets[b] := c[..p] + [e] + c[p..];
      Contents := Contents[hash(e.key) := e];
      size := size + 1;
    }

    /** Remove: look the key up, and when it is present unlink the entry
        right after its predecessor. Only the key's own chain changes, and it
        loses exactly the entry with that hash. */
    method Remove(key: K) returns (result: Option<V>)
      requires Valid()
      modifies buckets, this
      ensures Valid() && buckets == old(buckets) && noBuckets == old(noBuckets)
      ensures hash(key) in old(Contents) <==> result.Some?
      ensures result.Some? ==> result.value == old(Contents)[hash(key)].value
      ensures Contents == old(Contents) - {hash(key)}
      ensures size == if result.Some? then old(size) - 1 else old(size)
      ensures forall i :: 0 <= i < buckets.Length && i != hash(key) % noBuckets ==> buckets[i] == old(buckets[i])
      ensures buckets[hash(key) % noBuckets] == WithoutHash(hash, old(buckets[hash(key) % noBuckets]), hash(key))
      ensures result.None? ==> forall i :: 0 <= i < buckets.Length ==> buckets[i] == old(buckets[i])
    {
      var h := hash(key);
      var b := h % noBuckets;
      result := Lookup(key);
      var c := buckets[b];
      CoupledBucket(hash, buckets[..], Contents, b);
      if result.None? {
        WithoutAbsentHash(hash, c, h);
        assert Contents - {h} == Contents;
        return;
      }
      var p := FindPreviousEntryForKey(hash, c, h);
      CoupledLocate(hash, buckets[..], Contents, h, p);
      CoupledUnlink(hash, buckets[..], Contents, h, p);
      UnlinkIsWithoutHash(hash, c, p);
      buckets[b] := c[..p] + c[p + 1..];
      Contents := Contents - {h};
      size := size - 1;
    }

    /** Clear: detach the first entry of every chain until all are empty. */
    method Clear()
      requires Valid()
      modifies this, buckets
      ensures Valid() && buckets == old(buckets) && noBuckets == old(noBuckets)
      ensures Contents == map[] && size == 0
      ensures forall i :: 0 <= i < buckets.Length ==> buckets[i] == []
    {
      for i := 0 to noBuckets
        invariant buckets == old(buckets) && noBuckets == old(noBuckets)
        invariant size == |Flatten(buckets[..])|
        invariant forall k :: 0 <= k < i ==> buckets[k] == []
      {
        while |buckets[i]| > 0
          invariant buckets == old(buckets) && noBuckets == old(noBuckets)
          invariant size == |Flatten(buckets[..])|
          invariant forall k :: 0 <= k < i ==> buckets[k] == []
          decreases |buckets[i]|
        {
          ghost var before := buckets[..];
          FlattenUpdateLength(before, i, before[i][1..]);
          buckets[i] := buckets[i][1..];
          assert buckets[..] == before[i := before[i][1..]];
          size := size - 1;
        }
      }
      Contents := map[];
      CoupledEmpty(hash, buckets[..]);
    }

    /** The keys of every entry, in enumeration order. */
    method Keys() returns (keys: seq<K>)
      requires Valid()
      ensures |keys| == size && keys == KeysOf(Entries())
      ensures forall h :: h in Contents <==> exists k :: 0 <= k < |keys| && hash(keys[k]) == h
    {
      keys := [];
      assert buckets[..][..0] == [];
      for i := 0 to noBuckets
        invariant keys == KeysOf(Flatten(buckets[..][..i]))
      {
        var c := buckets[i];
        var j := 0;
        ghost var f: seq<Entry<K, V>> := Flatten(buckets[..][..i]);
        assert f + c[..0] == f;
        while j < |c|
          invariant j <= |c|
          invariant keys == KeysOf(f + c[..j])
        {
          assert f + c[..j + 1] == (f + c[..j]) + [c[j]];
          KeysOfAppend(f + c[..j], [c[j]]);
          keys := keys + [c[j].key];
          j := j + 1;
        }
        FlattenSnoc(buckets[..], i);
        assert c[..|c|] == c;
      }
      FlattenWhole(buckets[..]);
      EnumeratedKeys(hash, buckets[..], Contents, keys);
    }

    /** The values of every entry, in the same order as the keys. */
    method Values() returns (values: seq<V>)
      requires Valid()
      ensures |values| == size && values == ValuesOf(Entries())
      ensures forall k :: 0 <= k < |values| ==>
        hash(Entries()[k].key) in Contents && Contents[hash(Entries()[k].key)].value == values[k]
    {
      values := [];
      assert buckets[..][..0] == [];
      for i := 0 to noBuckets
        invariant values == ValuesOf(Flatten(buckets[..][..i]))
      {
        var c := buckets[i];
        var j := 0;
        ghost var f: seq<Entry<K, V>> := Flatten(buckets[..][..i]);
        assert f + c[..0] == f;
        while j < |c|
          invariant j <= |c|
          invariant values == ValuesOf(f + c[..j])
        {
          assert f + c[..j + 1] == (f + c[..j]) + [c[j]];
          ValuesOfAppend(f + c[..j], [c[j]]);
          values := values + [c[j].value];
          j := j + 1;
        }
        FlattenSnoc(buckets[..], i);
        assert c[..|c|] == c;
      }
      FlattenWhole(buckets[..]);
      CoupledEntries(hash, buckets[..], Contents);
    }

    /** Does every entry satisfy P? Keys and values are enumerated, then P
        is tried position by position until it fails. */
    method All<X>(P: (K, V, X) -> bool, x: X) returns (result: bool)
      requires Valid()
      ensures result <==> forall h :: h in Contents ==> P(Contents[h].key, Contents[h].value, x)
    {
      var n := size;
      var keys := Keys();
      var values := Values();
      result := true;
      var i := 0;
      while i < n && result
        invariant i <= n
        invariant result <==> forall k :: 0 <= k < i ==> P(keys[k], values[k], x)
      {
        result := result && P(keys[i], values[i], x);
        i := i + 1;
      }
      EnumeratedAll(hash, buckets[..], Contents, keys, values, P, x);
    }

    /** Does some entry satisfy P? P is tried position by position until it
        holds. */
    method Any<X>(P: (K, V, X) -> bool, x: X) returns (result: bool)
      requires Valid()
      ensures result <==> exists h :: h in Contents && P(Contents[h].key, Contents[h].value, x)
    {
      var n := size;
      var keys := Keys();
      var values := Values();
      result := false;
      var i := 0;
      while i < n && !result
        invariant i <= n
        invariant result <==> exists k :: 0 <= k < i && P(keys[k], values[k], x)
      {
        result := !result && P(keys[i], values[i], x);
        i := i + 1;
      }
      EnumeratedAny(hash, buckets[..], Contents, keys, values, P, x);
    }

    /** Some entry is equivalent to key under the table's key equivalence. */
    method HasKey(key: K) returns (result: bool)
      requires Valid()
      ensures result <==> exists h :: h in Contents && keyEquiv(Contents[h].key, Contents[h].value, key)
    {
      result := Any(keyEquiv, key);
    }

    /** Some entry is equivalent to value under the table's value equivalence. */
    method HasValue(value: V) returns (result: bool)
      requires Valid()
      ensures result <==> exists h :: h in Contents && valueEquiv(Contents[h].key, Contents[h].value, value)
    {
      result := Any(valueEquiv, value);
    }

    /** The value slots: slot k holds the chain position (bucket, offset)
        of the k-th enumerated entry. Slots are numbered by a running count
        over all chains, so slot k pairs with the k-th key. */
    method ValuesArr() returns (slots: seq<(nat, nat)>)
      requires Valid()
      ensures |slots| == size
      ensures forall k :: 0 <= k < |slots| ==> slots[k].0 < noBuckets && slots[k].1 < |buckets[slots[k].0]|
      ensures forall k :: 0 <= k < |slots| ==> Offset(buckets[..], slots[k].0) + slots[k].1 == k
      ensures forall k :: 0 <= k < |slots| ==> buckets[slots[k].0][slots[k].1] == Entries()[k]
    {
      ghost var B := buckets[..];
      slots := [];
      for i := 0 to noBuckets
        invariant |slots| == Offset(B, i)
        invariant forall k :: 0 <= k < |slots| ==>
          slots[k].0 < i && slots[k].1 < |B[slots[k].0]| && Offset(B, slots[k].0) + slots[k].1 == k
      {
        var c := buckets[i];
        var j := 0;
        while j < |c|
          invariant j <= |c| && |slots| == Offset(B, i) + j
          invariant forall k :: 0 <= k < |slots| ==>
            slots[k].0 <= i && slots[k].1 < |B[slots[k].0]| && Offset(B, slots[k].0) + slots[k].1 == k
        {
          slots := slots + [(i, j)];
          j := j + 1;
        }
        OffsetStep(B, i);
      }
      FlattenWhole(B);
      forall k | 0 <= k < |slots| ensures B[slots[k].0][slots[k].1] == Flatten(B)[k] {
        OffsetAt(B, slots[k].0, slots[k].1);
      }
    }

    /** Replace the value of every entry by f of its key, value and x, in
        place: the k-th key is paired with the value in slot k. Keys, chains
        and the enumeration order stay as they were. */
    method ApplyToAll<X>(f: (K, V, X) -> V, x: X)
      requires Valid()
      modifies this, buckets
      ensures Valid() && buckets == old(buckets) && noBuckets == old(noBuckets) && size == old(size)
      ensures Contents.Keys == old(Contents).Keys
      ensures forall h :: h in Contents ==>
        Contents[h] == Entry(old(Contents)[h].key, f(old(Contents)[h].key, old(Contents)[h].value, x))
      ensures Entries() == MapValues((k, v) => f(k, v, x), old(Entries()))
    {
      ghost var g := (k: K, v: V) => f(k, v, x);
      ghost var B := buckets[..];
      CoupledApply(hash, B, Contents, g);
      var keys := Keys();
      var slots := ValuesArr();
      ApplySlots(buckets, keys, slots, f, x, B, g);
      Contents := MapMap(g, Contents);
    }
  }

  /** Insert followed by lookup of the same key yields the inserted value. */
  method InsertThenLookup<K, V>(t: Table<K, V>, key: K, value: V) returns (result: Option<V>)
    requires t.Valid()
    modifies t, t.buckets
    ensures t.Valid() && result == Some(value)
  {
    t.Insert(key, value);
    result := t.Lookup(key);
  }
}
