# A verified model of a separate-chaining hash table

This project models the engine of a generic C hash table (`src/hash_table.c`)
and proves properties of it.

The table maps keys to values. It stores them in an array of buckets, and
each bucket holds a singly linked collision chain. The chain is kept in
strictly ascending order of key hash. The bucket count is always one of
eleven primes from a fixed library (17 up to 16381). Before every insert the
table checks its load: when `size / no_buckets` reaches the load factor, it
moves to the next prime and re-threads every entry into a new bucket array.

Two keys are the same key exactly when their hashes are equal. Lookup,
insert and remove compare hashes and never call the key-equivalence
function. That function and the value-equivalence function are used only by
`has_key` and `has_value`.

## How the model is built

- `primes.dfy` (module `PrimeLibrary`). The prime library as a constant
  sequence, the membership scan and the successor scan. Both scans are
  methods with loops, proved against the function `NextPrime` and against
  membership in the sequence.
- `chains.dfy` (module `Chains`). One collision chain.
  - The C chain is a sentinel head node followed by linked entries. Here it
    is a `seq<Entry<K, V>>` holding the real entries only.
  - The pointer returned by the predecessor search becomes an index `p`. The
    predecessor is entry `p - 1`, or the sentinel when `p == 0`, and the node
    after it is entry `p`.
  - Also here: the lemmas about splicing an entry in and unlinking one out
    of a sorted chain, and the reference function `WithoutHash`.
- `buckets.dfy` (module `Buckets`). The bucket array as a value.
  - `Flatten` lists the entries in enumeration order: bucket by bucket, then
    in chain order.
  - `Coupled` ties the chains to the abstract map from key hash to entry.
  - The lemmas show that each chain update changes that map exactly as
    intended. Other lemmas relate the enumeration to the map (keys, values,
    all, any) and to value transforms (apply_to_all).
- `hash_table.dfy` (module `HashTable`). The table itself.
  - It is a class `Table<K, V>`. Its fields are the bucket array (an
    `array<seq<Entry>>`), the bucket count, the load factor, the three
    functions and the size.
  - A ghost field `Contents` holds the map the table represents. `Valid()`
    couples `Contents` to the buckets and `size` to the entry count.
  - Every table operation is a method or function of the class. Resize's
    rehash loop is the module-level method `Rehash`, whose inner loop is
    `MoveChain`. The apply loop of `apply_to_all` is the module-level
    method `ApplySlots`. The predecessor search is in `Chains`, the prime
    scans are in `PrimeLibrary` and the defaults are in `Defaults`.
- `defaults.dfy` (module `Defaults`). The default hash and equivalence
  functions for tables whose keys and values are the signed 32-bit integer
  member of the element union. Creation with optional functions. And the
  behaviours the unit tests describe, stated as methods over concrete
  tables.
- `values_arr.dfy` (module `ValueSlots`). The slot array that
  `hash_table_values_arr` fills, modelled both as written and as corrected
  (see Findings).

In the model:

- Integers are unbounded. Hashes are `nat`.
- The load factor is a `real`, and load is computed exactly.
- Lookup's and remove's out-pointer becomes an `Option<V>` result. `None`
  means the pointer is left untouched.
- The `const void *x` extra argument of predicates and of the apply function
  becomes a value of a type parameter `X`.
- The apply function in C updates the value through a pointer. Here it
  returns the new value.

A default table (17 buckets, load factor 0.75) first grows just before its
14th insert. The growth test at `src/hash_table.c:192-193` compares
`size / no_buckets` with the load factor before every insert, and 13/17 is
the first load that reaches 0.75. So an 18th key (key 17, after keys 0 to
16) finds 31 buckets already. `Defaults.DefaultGrowthPoint` and
`Defaults.GrowthScenario` state this.

The predicate `HashTable.LoadReached` is that growth test (`size / no_buckets
>= load_factor`, lines 192-193). It is the condition used by
`GrownBucketCount` and `Resize` and has no contract of its own.

## Model

| member | source | states |
|---|---|---|
| PrimeLibrary.PrimesAscending | src/hash_table.c:37 | the library has eleven entries in strictly ascending order, and 16381 is the last |
| PrimeLibrary.NextPrime | src/hash_table.c:163-177 | -1 exactly when the number is not in the library or is its last entry; otherwise the result is the smallest library entry above the number |
| PrimeLibrary.IsNumberInPrimeLibrary | src/hash_table.c:144-156 | true exactly when the number is one of the library's bucket counts |
| PrimeLibrary.GetNextPrimeNumber | src/hash_table.c:163-177 | the linear scan returns the library successor of the current count, or -1 (NextPrime) |
| HashTable.GrownBucketCount | src/hash_table.c:190-200 | the count after the load check is a library entry no smaller than before; it changes exactly when the load reached the factor and the count is not the last prime, and then it is the next larger prime |
| HashTable.Table.Resize | src/hash_table.c:190-245 | the load test first; the bucket count becomes GrownBucketCount of the old size and count: unchanged below the load factor or at the last prime (the same array is kept), otherwise the next prime with a fresh array; the mapped contents and the size stay the same, and the table stays valid, with every chain sorted and in its new bucket |
| HashTable.Rehash | src/hash_table.c:200-235 | a fresh array of the new count whose chains are again sorted, in the right buckets and coupled to the same map, with as many entries as before |
| HashTable.MoveChain | src/hash_table.c:215-229 | moving one old chain into the new array adds exactly that chain's mappings and entry count, keeping the coupling |
| Buckets.RehashFresh | src/hash_table.c:219-228 | the entry being moved is not in the new array yet, and it is the old map's entry for its hash |
| HashTable.Table.constructor | src/hash_table.c:315-376 | a valid empty table with the given bucket count, load factor and functions, every chain empty |
| HashTable.Table.CreateDynamic | src/hash_table.c:315-376 | null exactly when the bucket count is not in the library or the load factor is not positive; otherwise a fresh valid empty table with those settings |
| HashTable.Table.Create | src/hash_table.c:388-391 | a fresh valid empty table with 17 buckets and load factor 0.75 |
| HashTable.Table.Size | src/hash_table.c:254-257 | the size is the number of mapped keys and the number of chained entries |
| HashTable.Table.IsEmpty | src/hash_table.c:266-269 | true exactly when the table maps nothing |
| Buckets.CoupledCount | src/hash_table.c:254-257 | the number of chained entries is the number of mappings |
| Buckets.CoupledEntries | src/hash_table.c:570-587 | every enumerated entry is the mapping for its hash, every mapping is enumerated, and no hash is enumerated twice |
| Chains.FindPreviousEntryForKey | src/hash_table.c:400-416 | the stop index has only smaller hashes before it and no smaller hash at it; on a sorted chain everything from it on hashes at least h |
| Chains.SplicePointLocates | src/hash_table.c:400-416 | on a sorted chain an entry of hash h can only be right after the predecessor |
| HashTable.Table.Lookup | src/hash_table.c:278-297 | a value is found exactly when the key's hash is mapped, and it is the mapped value |
| Buckets.CoupledLocate | src/hash_table.c:455-459 | the hash is mapped exactly when the entry after the predecessor carries it, and then that entry is the mapping |
| HashTable.Table.Insert | src/hash_table.c:450-474 | load check first (bucket count per GrownBucketCount); a mapped hash gets the new value and keeps its stored key and the size; an unmapped one gains the entry and size grows by one; other mappings unchanged |
| HashTable.Table.Place | src/hash_table.c:453-473 | the same update of the map without resizing, on the same bucket array |
| HashTable.Table.OverwriteAt | src/hash_table.c:459-462 | only the value of the found mapping changes |
| HashTable.Table.SpliceAt | src/hash_table.c:463-473 | exactly the new mapping is added and size grows by one |
| Chains.SpliceSorted | src/hash_table.c:463-472 | splicing after the predecessor keeps the chain strictly sorted |
| Buckets.CoupledSplice | src/hash_table.c:463-472 | the splice adds exactly the new mapping and one entry |
| Buckets.CoupledOverwrite | src/hash_table.c:459-462 | the overwrite replaces only that mapping's value and keeps its key and the entry count |
| HashTable.Table.Remove | src/hash_table.c:494-514 | the value is returned exactly when the hash was mapped; the mapping is gone, size drops by one only then, only the key's bucket changes, and that bucket becomes WithoutHash of its old chain |
| Chains.UnlinkIsWithoutHash | src/hash_table.c:505-509 | unlinking the entry after the predecessor drops exactly the entries of that hash and keeps the others in order |
| Chains.UnlinkSorted | src/hash_table.c:505-509 | the unlinked chain stays sorted |
| Buckets.CoupledUnlink | src/hash_table.c:505-510 | the unlink removes exactly that mapping and one entry |
| HashTable.Table.Clear | src/hash_table.c:522-538 | every chain is empty, nothing is mapped and size is 0; the bucket array and count stay |
| Buckets.CoupledEmpty | src/hash_table.c:522-538 | all-empty chains couple to the empty map and enumerate nothing |
| HashTable.Table.Keys | src/hash_table.c:570-587 | size keys, the keys of the entries in enumeration order; their hashes are exactly the mapped hashes |
| HashTable.Table.Values | src/hash_table.c:594-611 | size values, the values of the entries in the same enumeration order as Keys |
| Buckets.EnumeratedKeys | src/hash_table.c:570-587 | the enumerated keys hash to exactly the mapped hashes |
| HashTable.Table.All | src/hash_table.c:645-660 | true exactly when P holds for every mapped key and value |
| Buckets.EnumeratedAll | src/hash_table.c:652-655 | trying P position by position over keys and values decides P for every mapping |
| Buckets.CoupledAll | src/hash_table.c:652-655 | a property of every enumerated entry is a property of every mapping, and back |
| HashTable.Table.Any | src/hash_table.c:668-682 | true exactly when P holds for some mapped key and value |
| Buckets.EnumeratedAny | src/hash_table.c:675-678 | trying P position by position decides whether some mapping satisfies P |
| Buckets.CoupledAny | src/hash_table.c:675-678 | some enumerated entry has a property exactly when some mapping does |
| HashTable.Table.HasKey | src/hash_table.c:621-624 | true exactly when the key-equivalence function holds for some mapping and the given key |
| HashTable.Table.HasValue | src/hash_table.c:634-637 | true exactly when the value-equivalence function holds for some mapping and the given value |
| HashTable.Table.ValuesArr | src/hash_table.c:717-735 | corrected slot fill: size slots, slot k is the chain position of the k-th enumerated entry |
| HashTable.ApplySlots | src/hash_table.c:697-703 | passing each key and slot to f replaces every chained value by f's result, entries in place |
| HashTable.Table.ApplyToAll | src/hash_table.c:692-707 | same buckets, count, size and mapped hashes; each mapping keeps its key and gets f(key, old value, x); the enumeration is the old one with values mapped |
| Buckets.CoupledApply | src/hash_table.c:692-707 | mapping values keeps the coupling and maps the enumeration |
| Buckets.OffsetOrder | src/hash_table.c:717-735 | the running slot of (bucket, offset) identifies the position: two positions share a slot only when they are equal |
| HashTable.InsertThenLookup | src/hash_table.c:450-474 | after inserting a key, looking it up finds the inserted value |
| Defaults.DefaultHash | src/hash_table.c:112-115 | the key's integer converted to unsigned long: below 2^64 and congruent to the key modulo 2^64 |
| Defaults.DefaultHashInjective | src/hash_table.c:112-115 | two 32-bit keys have the same default hash exactly when they are equal |
| Defaults.DefaultKeyEquiv | src/hash_table.c:123-126 | equal exactly when the entry key and the given key are the same integer |
| Defaults.DefaultValueEquiv | src/hash_table.c:134-137 | equal exactly when the entry value and the given value are the same integer |
| Defaults.DefaultHasKeyIsLookup | src/hash_table.c:621-624 | with the defaults, has_key succeeds exactly when lookup would find the key |
| Defaults.CreateWithDefaults | src/hash_table.c:346-368 | a missing hash or equivalence function is replaced by its default; the null cases are those of CreateDynamic |
| Defaults.DefaultGrowthPoint | src/hash_table.c:192-193 | at 17 buckets and factor 0.75 the count stays 17 up to size 12 and becomes 31 at size 13; at 31 buckets it stays up to size 23 |
| Defaults.OverwriteScenario | tests/hash_table_test.c:142-152 | inserting key 1 twice leaves one entry with the second value |
| Defaults.RemoveMiddleScenario | tests/hash_table_test.c:177-192 | among keys 1, 2, 3, removing 2 returns its value; 1 and 3 are still found and 2 is not |
| Defaults.OneKey | tests/hash_table_test.c:180 | a fresh default table mapping only key 1, to 10, with 17 buckets and size 1 |
| Defaults.TwoKeys | tests/hash_table_test.c:180-181 | a fresh default table mapping keys 1 and 2 to 10 and 20, with 17 buckets and size 2 |
| Defaults.ThreeKeys | tests/hash_table_test.c:180-182 | a fresh default table mapping keys 1, 2 and 3 to 10, 20 and 30 |
| Defaults.InsertNext | src/hash_table.c:192-193 | inserting key i into a default table holding keys 0 to i - 1 adds it with its value, size grows by one, and the bucket count is 17 up to 13 entries and 31 after |
| Defaults.SeventeenKeys | src/hash_table.c:192-193 | after inserting keys 0 to 16 a default table has 31 buckets and 17 entries, each key mapped to itself |
| Defaults.GrowthScenario | src/hash_table.c:192-193 | with key 17 inserted after keys 0 to 16, the count is 31 before and after, and all 18 keys are found with their values |
| Defaults.HundredKeysScenario | tests/hash_table_test.c:428-447 | inserting keys 0 to 99, each with itself as value, into a table of 17 buckets and load factor 0.75 gives size 100, and every one of the 100 keys is found with its value |
| Defaults.FilledTable | tests/hash_table_test.c:430-437 | after inserting keys 0 to n - 1 into a fresh table of 17 buckets and load factor 0.75, exactly those keys are mapped, each to itself, and the size is n |
| Defaults.InsertSelf | tests/hash_table_test.c:434-437 | one step of that loop: inserting new key i with itself as value adds exactly that mapping and grows the size by one |
| Defaults.LookupEach | tests/hash_table_test.c:439-443 | looking up keys 0 to n - 1 in a table mapping each to itself finds every one with its value |
| Defaults.CeilingScenario | tests/hash_table_test.c:449-463 | at 16381 buckets with factor 0.01, 165 distinct inserts all land and the count never changes |
| ValueSlots.ValuesArrAsWritten | src/hash_table.c:717-735 | the fill as written: every written slot is bucket index plus chain offset of a real position; every position's slot is written, last by that bucket or a later one |
| ValueSlots.WriteChain | src/hash_table.c:722-732 | one chain's inner loop writes slot i + j for each offset j |
| ValueSlots.CollisionCounterexample | src/hash_table.c:717-735 | the chains used are those of a default table holding keys 0, 17 and 1 (coupled under the default hash to that map, size 3); on them slot 1 ends up holding key 1's position, key 17's position is in no slot, and slot 2 is never written |

## Left out

- Diagnostic output (`printf`, `puts`) is not modelled.
- Allocation failure is not modelled. This covers creation returning NULL
  after a failed `calloc`, resize keeping the old array when its `calloc`
  fails, and insert dropping the entry when `entry_create` fails. Allocation
  always succeeds in the model.
- `hash_table_destroy`, `entry_destroy` and `free` are not modelled: memory
  is not modelled.
- `entry_create` is part of the splice in `SpliceAt`. It is not a separate
  member.
- The element union `elem_t` is generic: keys and values are type
  parameters. The defaults cover only the integer member.
- The linked-list utility that keys and values return is a `seq`. Its
  `linked_list_get` is sequence indexing.
- Floating point is not modelled. The load factor is a `real` and the load
  is an exact quotient. `float` rounding of `size / no_buckets` could in
  principle move the growth point by one insert near a boundary.
- Integer widths: hashes are unbounded `nat`. The narrowing of `size_t` to
  `int` in `is_number_in_prime_library` and of the bucket index to `int` is
  not modelled. Bucket indices are below 16381 and cannot overflow.
- Relinking is modelled as reassigning chain sequences, so node identity and
  aliasing are not represented. The rehash allocates no new entries in C
  either, but the model does not capture that the same nodes are reused.
- HashTable.Table.ApplyToAll: it uses the corrected slot fill
  (`ValuesArr`), not the one as written. The as-written fill is in
  `ValueSlots`.
- ValueSlots.ValuesArrAsWritten: it records which chain position each
  written slot refers to. A slot past the end of the `size`-element array
  is recorded like any other slot. The memory such a write corrupts is not
  modelled.
- The remove tests store the strings "first", "second" and "third". The
  scenarios `OneKey`, `TwoKeys`, `ThreeKeys` and `RemoveMiddleScenario` use
  the integers 10, 20 and 30 instead, because default tables here hold
  32-bit integers.
- A NULL hash or equivalence function selects the defaults only in
  `Defaults.CreateWithDefaults`, for tables of 32-bit integers. The generic
  `CreateDynamic` always takes functions.

## Findings

| source | as written | input that shows it | evidently intended | confidence | as-written member | corrected member |
|---|---|---|---|---|---|---|
| src/hash_table.c:722-731 | the entry at offset j of bucket i is stored in slot `i + j`, the bucket index plus the chain offset | default table with keys 0, 17, 1: keys 0 and 17 sit in bucket 0, key 1 in bucket 1; key 17 (0 + 1) and key 1 (1 + 0) both write slot 1, key 17 is lost, and slot 2 is never written though the size is 3 | slot k holds the k-th entry in the enumeration order of `hash_table_keys`, so `apply_to_all` pairs each key with its own value | not executed | ValueSlots.ValuesArrAsWritten, ValueSlots.CollisionCounterexample | HashTable.Table.ValuesArr |
