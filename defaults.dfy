/** The functions a table gets when it is created without its own hash or
    equivalence: keys and values are read as the signed 32-bit integer
    member of the element union. Also the behaviour of default tables on
    the concrete scenarios the unit tests describe. */
module Defaults {
  import opened PrimeLibrary
  import opened Chains
  import opened HashTable

  newtype int32 = x: int | -0x8000_0000 <= x < 0x8000_0000

  const TwoTo64: int := 0x1_0000_0000_0000_0000

  /** The key's integer converted to a 64-bit unsigned long: a negative
      integer wraps around modulo 2^64. */
  function DefaultHash(key: int32): (h: nat)
    ensures h < TwoTo64 && h % TwoTo64 == key as int % TwoTo64
  {
    if key < 0 then key as int + TwoTo64 else key as int
  }

  /** The stored key equals the probe key. */
  function DefaultKeyEquiv(key: int32, value: int32, x: int32): (r: bool)
    ensures r <==> DefaultHash(key) == DefaultHash(x)
  {
    key == x
  }

  /** The stored value equals the probe value. */
  function DefaultValueEquiv(key: int32, value: int32, x: int32): (r: bool)
    ensures r <==> DefaultHash(value) == DefaultHash(x)
  {
    value == x
  }

  /** Under the default hash two integer keys are the same key exactly when
      they are equal. */
  lemma DefaultHashInjective(a: int32, b: int32)
    ensures DefaultHash(a) == DefaultHash(b) <==> a == b
  {
  }

  /** With the default functions, has_key answers what lookup answers: some
      stored key is equivalent to the probe iff the probe's hash is mapped. */
  lemma DefaultHasKeyIsLookup(m: map<nat, Entry<int32, int32>>, key: int32)
    requires forall h :: h in m ==> DefaultHash(m[h].key) == h
    ensures (exists h :: h in m && DefaultKeyEquiv(m[h].key, m[h].value, key)) <==> DefaultHash(key) in m
  {
    if DefaultHash(key) in m {
      var h := DefaultHash(key);
      assert DefaultKeyEquiv(m[h].key, m[h].value, key);
    }
  }

  /** Creation where a missing hash or equivalence function is replaced by
      its default. */
  method CreateWithDefaults(n: nat, loadFactor: real, hash: Option<int32 -> nat>,
                            keyEquiv: Option<(int32, int32, int32) -> bool>,
                            valueEquiv: Option<(int32, int32, int32) -> bool>)
    returns (t: Table?<int32, int32>)
    ensures t == null <==> n !in Primes || loadFactor <= 0.0
    ensures t != null ==> fresh(t) && fresh(t.buckets) && t.Valid() && t.size == 0 && t.Contents == map[]
    ensures t != null ==> t.hash == (if hash.Some? then hash.value else DefaultHash)
    ensures t != null ==> t.keyEquiv == (if keyEquiv.Some? then keyEquiv.value else DefaultKeyEquiv)
    ensures t != null ==> t.valueEquiv == (if valueEquiv.Some? then valueEquiv.value else DefaultValueEquiv)
  {
    var h := if hash.Some? then hash.value else DefaultHash;
    var ke := if keyEquiv.Some? then keyEquiv.value else DefaultKeyEquiv;
    var ve := if valueEquiv.Some? then valueEquiv.value else DefaultValueEquiv;
    t := Table<int32, int32>.CreateDynamic(n, loadFactor, h, ke, ve);
  }

  /** A default table grows for the first time before its 14th insert: at
      17 buckets a load of 13/17 is the first that reaches 0.75. */
  lemma DefaultGrowthPoint()
    ensures forall s: nat :: s <= 12 ==> GrownBucketCount(s, 17, 0.75) == 17
    ensures GrownBucketCount(13, 17, 0.75) == 31
    ensures forall s: nat :: s <= 23 ==> GrownBucketCount(s, 31, 0.75) == 31
  {
    assert NextPrime(17) == 31;
  }

  /** Re-inserting a key overwrites its value and leaves the size alone. */
  method OverwriteScenario() returns (found: Option<int32>, size: nat)
    ensures found == Some(2) && size == 1
  {
    var t := Table<int32, int32>.Create(DefaultHash, DefaultKeyEquiv, DefaultValueEquiv);
    t.Insert(1, 1);
    t.Insert(1, 2);
    found := t.Lookup(1);
    size := t.Size();
  }

  /** A default table holding key 1 with value 10. */
  method OneKey() returns (t: Table<int32, int32>)
    ensures fresh(t) && fresh(t.buckets) && t.Valid() && t.hash == DefaultHash
    ensures t.noBuckets == 17 && t.loadFactor == 0.75 && t.size == 1
    ensures t.Contents == map[1 := Entry(1, 10)]
  {
    t := Table<int32, int32>.Create(DefaultHash, DefaultKeyEquiv, DefaultValueEquiv);
    DefaultGrowthPoint();
    t.Insert(1, 10);
  }

  /** A default table holding keys 1 and 2 with values 10 and 20. */
  method TwoKeys() returns (t: Table<int32, int32>)
    ensures fresh(t) && fresh(t.buckets) && t.Valid() && t.hash == DefaultHash
    ensures t.noBuckets == 17 && t.loadFactor == 0.75 && t.size == 2
    ensures t.Contents == map[1 := Entry(1, 10), 2 := Entry(2, 20)]
  {
    t := OneKey();
    DefaultGrowthPoint();
    t.Insert(2, 20);
  }

  /** A default table holding keys 1, 2 and 3 with values 10, 20 and 30. */
  method ThreeKeys() returns (t: Table<int32, int32>)
    ensures fresh(t) && fresh(t.buckets) && t.Valid() && t.hash == DefaultHash
    ensures t.Contents == map[1 := Entry(1, 10), 2 := Entry(2, 20), 3 := Entry(3, 30)]
  {
    t := TwoKeys();
    DefaultGrowthPoint();
    t.Insert(3, 30);
  }

  /** Removing the middle of three keys reports its value and leaves the
      other two in place. */
  method RemoveMiddleScenario() returns (removed: Option<int32>, first: Option<int32>, middle: Option<int32>, last: Option<int32>)
    ensures removed == Some(20) && first == Some(10) && middle == None && last == Some(30)
  {
    var t := ThreeKeys();
    removed := t.Remove(2);
    assert 1 in t.Contents && t.Contents[1] == Entry(1, 10);
    assert 3 in t.Contents && t.Contents[3] == Entry(3, 30);
    first := t.Lookup(1);
    middle := t.Lookup(2);
    last := t.Lookup(3);
  }

  /** A default table after inserting keys 0 to 16, each with itself as
      value: it has grown once, on the 14th insert. */
  method SeventeenKeys() returns (t: Table<int32, int32>)
    ensures fresh(t) && fresh(t.buckets) && t.Valid() && t.hash == DefaultHash && t.loadFactor == 0.75
    ensures t.noBuckets == 31 && t.size == 17
    ensures forall h: nat :: h in t.Contents <==> h < 17
    ensures forall h :: h in t.Contents ==> t.Contents[h].value == h as int32
  {
    t := Table<int32, int32>.Create(DefaultHash, DefaultKeyEquiv, DefaultValueEquiv);
    DefaultGrowthPoint();
    for i := 0 to 17
      invariant t.Valid() && fresh(t.buckets) && t.hash == DefaultHash && t.loadFactor == 0.75
      invariant t.noBuckets == if i <= 13 then 17 else 31
      invariant t.size == i
      invariant forall h: nat :: h in t.Contents <==> h < i
      invariant forall h :: h in t.Contents ==> t.Contents[h].value == h as int32
    {
      InsertNext(t, i);
    }
  }

  /** One step of filling a default table with keys 0, 1, 2, ...: key i is
      new, so the size grows by one, and the table grows on the 14th insert. */
  method InsertNext(t: Table<int32, int32>, i: nat)
    requires i < 17 && t.Valid() && t.hash == DefaultHash && t.loadFactor == 0.75
    requires t.noBuckets == (if i <= 13 then 17 else 31) && t.size == i
    requires forall h: nat :: h in t.Contents <==> h < i
    requires forall h :: h in t.Contents ==> t.Contents[h].value == h as int32
    modifies t, t.buckets
    ensures t.Valid() && t.hash == DefaultHash && t.loadFactor == 0.75
    ensures t.buckets == old(t.buckets) || fresh(t.buckets)
    ensures t.noBuckets == (if i + 1 <= 13 then 17 else 31) && t.size == i + 1
    ensures forall h: nat :: h in t.Contents <==> h < i + 1
    ensures forall h :: h in t.Contents ==> t.Contents[h].value == h as int32
  {
    DefaultGrowthPoint();
    t.Insert(i as int32, i as int32);
  }

  /** Inserting keys 0 to 16 and then 17 into a default table: the table
      has already grown to 31 buckets before key 17 arrives, and every key
      is found with its value. */
  method GrowthScenario() returns (bucketsBefore17: nat, bucketsAfter17: nat, found: seq<Option<int32>>)
    ensures bucketsBefore17 == 31 && bucketsAfter17 == 31
    ensures |found| == 18 && forall k :: 0 <= k < 18 ==> found[k] == Some(k as int32)
  {
    var t := SeventeenKeys();
    bucketsBefore17 := t.noBuckets;
    DefaultGrowthPoint();
    t.Insert(17, 17);
    bucketsAfter17 := t.noBuckets;
    found := [];
    for k := 0 to 18
      invariant t.Valid() && t.hash == DefaultHash
      invariant forall h: nat :: h < 18 ==> h in t.Contents && t.Contents[h].value == h as int32
      invariant |found| == k && forall j :: 0 <= j < k ==> found[j] == Some(j as int32)
    {
      var r := t.Lookup(k as int32);
      found := found + [r];
    }
  }

  /** Inserting keys 0 to 99, each with itself as value, into a table of 17
      buckets and load factor 0.75: the table grows several times on the
      way, and afterwards every key is found with its value. */
  method HundredKeysScenario() returns (size: nat, found: seq<Option<int32>>)
    ensures size == 100
    ensures |found| == 100 && forall k :: 0 <= k < 100 ==> found[k] == Some(k as int32)
  {
    var t := FilledTable(100);
    size := t.Size();
    found := LookupEach(t, 100);
  }

  /** Looking up keys 0 to n - 1 in a table that maps each of them to
      itself finds every one with its value. */
  method LookupEach(t: Table<int32, int32>, n: nat) returns (found: seq<Option<int32>>)
    requires n < 0x8000_0000 && t.Valid() && t.hash == DefaultHash
    requires forall h: nat :: h < n ==> h in t.Contents && t.Contents[h].value == h as int32
    ensures |found| == n && forall k :: 0 <= k < n ==> found[k] == Some(k as int32)
  {
    found := [];
    for k := 0 to n
      invariant |found| == k && forall j :: 0 <= j < k ==> found[j] == Some(j as int32)
    {
      assert DefaultHash(k as int32) == k;
      var r := t.Lookup(k as int32);
      found := found + [r];
    }
  }

  /** A table of 17 buckets and load factor 0.75 after inserting keys 0 to
      n - 1, each with itself as value. */
  method FilledTable(n: nat) returns (t: Table<int32, int32>)
    requires n < 0x8000_0000
    ensures fresh(t) && t.Valid() && t.hash == DefaultHash && t.size == n
    ensures forall h: nat :: h in t.Contents <==> h < n
    ensures forall h :: h in t.Contents ==> t.Contents[h].value == h as int32
  {
    var created := Table<int32, int32>.CreateDynamic(17, 0.75, DefaultHash, DefaultKeyEquiv, DefaultValueEquiv);
    t := created;
    for i := 0 to n
      invariant t.Valid() && fresh(t.buckets) && t.hash == DefaultHash
      invariant t.size == i
      invariant forall h: nat :: h in t.Contents <==> h < i
      invariant forall h :: h in t.Contents ==> t.Contents[h].value == h as int32
    {
      InsertSelf(t, i);
    }
  }

  /** Inserting key i, with itself as value, into a table that maps keys 0
      to i - 1 to themselves: the key is new, so it is added and the size
      grows by one. */
  method InsertSelf(t: Table<int32, int32>, i: nat)
    requires i < 0x8000_0000 && t.Valid() && t.hash == DefaultHash && t.size == i
    requires forall h: nat :: h in t.Contents <==> h < i
    requires forall h :: h in t.Contents ==> t.Contents[h].value == h as int32
    modifies t, t.buckets
    ensures t.Valid() && t.hash == DefaultHash && t.size == i + 1
    ensures t.buckets == old(t.buckets) || fresh(t.buckets)
    ensures forall h: nat :: h in t.Contents <==> h < i + 1
    ensures forall h :: h in t.Contents ==> t.Contents[h].value == h as int32
  {
    assert DefaultHash(i as int32) == i;
    t.Insert(i as int32, i as int32);
  }

  /** At the largest bucket count the table never grows, however low its
      load factor: 165 inserts of distinct keys all succeed. */
  method CeilingScenario() returns (size: nat, noBuckets: nat)
    ensures size == 165 && noBuckets == 16381
  {
    var t := Table<int32, int32>.CreateDynamic(16381, 0.01, DefaultHash, DefaultKeyEquiv, DefaultValueEquiv);
    assert t != null;
    for i := 0 to 165
      invariant t.Valid() && fresh(t.buckets) && t.hash == DefaultHash && t.noBuckets == 16381
      invariant t.size == i
      invariant forall h: nat :: h in t.Contents <==> h < i
    {
      t.Insert(i as int32, i as int32);
    }
    size := t.Size();
    noBuckets := t.noBuckets;
  }
}
