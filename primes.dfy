/** The fixed library of bucket counts a table may use, and the two
    queries the table makes on it: membership (checked at creation) and
    the successor (used when the table grows). */
module PrimeLibrary {

  /** Every bucket count a table may ever have, in ascending order. */
  const Primes: seq<int> := [17, 31, 67, 127, 257, 509, 1021, 2053, 4099, 8191, 16381]

  /** The largest bucket count; a table that reaches it never grows again. */
  const LastPrime: int := 16381

  lemma PrimesAscending()
    ensures |Primes| == 11 && Primes[|Primes| - 1] == LastPrime
    ensures forall a, b :: 0 <= a < b < |Primes| ==> Primes[a] < Primes[b]
  {
    assert forall k :: 0 <= k < |Primes| - 1 ==> Primes[k] < Primes[k + 1];
    forall a, b | 0 <= a < b < |Primes| ensures Primes[a] < Primes[b] {
      AscendingStep(a, b);
    }
  }

  lemma {:induction false} AscendingStep(a: nat, b: nat)
    requires a < b < |Primes|
    requires forall k :: 0 <= k < |Primes| - 1 ==> Primes[k] < Primes[k + 1]
    ensures Primes[a] < Primes[b]
    decreases b - a
  {
    if a + 1 < b {
      AscendingStep(a + 1, b);
    }
  }

  /** Scan of the table from index i. Nothing before i matches. */
  function NextPrimeFrom(current: int, i: nat): (r: int)
    requires i <= |Primes|
    requires forall k :: 0 <= k < i ==> Primes[k] != current
    ensures r == -1 <==> current !in Primes || current == LastPrime
    ensures r != -1 ==> exists k :: 0 <= k < |Primes| - 1 && Primes[k] == current && Primes[k + 1] == r
    decreases |Primes| - i
  {
    if i == |Primes| then -1
    else if Primes[i] == current then
      (if i < |Primes| - 1 then Primes[i + 1] else -1)
    else NextPrimeFrom(current, i + 1)
  }

  /** The bucket count that follows `current` in the library, or -1 when
      `current` is the last entry or is not in the library at all. */
  function NextPrime(current: int): (r: int)
    ensures r == -1 <==> current !in Primes || current == LastPrime
    ensures r != -1 ==> current in Primes && r in Primes && current < r
    ensures r != -1 ==> forall q :: q in Primes && current < q ==> r <= q
  {
    var r := NextPrimeFrom(current, 0);
    if r == -1 then r else SuccessorIsNext(current, r); r
  }

  lemma SuccessorIsNext(current: int, r: int)
    requires exists k :: 0 <= k < |Primes| - 1 && Primes[k] == current && Primes[k + 1] == r
    ensures current in Primes && r in Primes && current < r
    ensures forall q :: q in Primes && current < q ==> r <= q
  {
    PrimesAscending();
    var k :| 0 <= k < |Primes| - 1 && Primes[k] == current && Primes[k + 1] == r;
    assert forall j :: 0 <= j < |Primes| && current < Primes[j] ==> k < j;
  }

  /** Linear scan of the prime library, as done before a table is created. */
  method IsNumberInPrimeLibrary(num: int) returns (result: bool)
    ensures result <==> num in Primes
  {
    result := false;
    for i := 0 to |Primes|
      invariant !result
      invariant forall k :: 0 <= k < i ==> Primes[k] != num
    {
      if Primes[i] == num {
        result := true;
        break;
      }
    }
  }

  /** Linear scan for the successor of `current`, as done when a table grows. */
  method GetNextPrimeNumber(current: int) returns (result: int)
    ensures result == NextPrime(current)
  {
    result := -1;
    for i := 0 to |Primes|
      invariant result == -1
      invariant forall k :: 0 <= k < i ==> Primes[k] != current
    {
      if Primes[i] == current {
        if i < |Primes| - 1 {
          result := Primes[i + 1];
        }
        break;
      }
    }
  }
}
