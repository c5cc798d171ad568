/** How many buckets the operator cache gets. */
module OpCacheSizing {
  predicate Ascending(t: seq<nat>) {
    forall i, j :: 0 <= i < j < |t| ==> t[i] < t[j]
  }

  /** std::lower_bound over all table entries but the last, dereferenced: the
      first entry that is at least n, or the last one. */
  function FirstAtLeast(t: seq<nat>, n: nat): (p: nat)
    requires t != []
    ensures p in t
  {
    if |t| == 1 || t[0] >= n then t[0] else FirstAtLeast(t[1..], n)
  }

  /** p is the smallest entry that is at least n, or the largest of all if there is none. */
  ghost predicate IsFirstAtLeast(t: seq<nat>, n: nat, p: nat) {
    p in t && (forall q :: q in t && q < p ==> q < n) && (p < n ==> forall q :: q in t ==> q <= p)
  }

  lemma {:induction false} FirstAtLeastBounds(t: seq<nat>, n: nat)
    requires t != [] && Ascending(t)
    ensures IsFirstAtLeast(t, n, FirstAtLeast(t, n))
    ensures FirstAtLeast(t, n) <= t[|t| - 1]
    ensures n <= t[|t| - 1] ==> FirstAtLeast(t, n) >= n
    ensures n > t[|t| - 1] ==> FirstAtLeast(t, n) == t[|t| - 1]
  {
    assert t == [t[0]] + t[1..];
    if |t| > 1 && t[0] < n {
      FirstAtLeastBounds(t[1..], n);
    }
  }

  const INIT_BUCKET_NUM: nat := 3
  const BUCKET_NUM_FACTOR: nat := 2

  /** The loop variable of the sizing loop after k rounds. */
  function Rounds(primes: seq<nat>, k: nat): (n: nat)
    requires primes != []
  {
    if k == 0 then INIT_BUCKET_NUM else FirstAtLeast(primes, Rounds(primes, k - 1)) * BUCKET_NUM_FACTOR
  }

  /** Round k is the first after which the loop variable exceeds the capacity. */
  ghost predicate EndsAfter(primes: seq<nat>, capacity: nat, k: nat)
    requires primes != []
  {
    Rounds(primes, k) > capacity && forall j: nat :: j < k ==> Rounds(primes, j) <= capacity
  }

  /** n is at most twice any entry that is at least the capacity. */
  ghost predicate NotTooLarge(primes: seq<nat>, capacity: nat, n: nat) {
    forall p :: p in primes && p >= capacity ==> n <= BUCKET_NUM_FACTOR * p
  }

  /** n is at most any entry of at least twice an entry that is at least the capacity. */
  ghost predicate NotTooMany(primes: seq<nat>, capacity: nat, n: nat) {
    forall p, q :: p in primes && q in primes && p >= capacity && q >= BUCKET_NUM_FACTOR * p ==> n <= q
  }

  lemma DoubledBound(primes: seq<nat>, capacity: nat, n: nat, p: nat)
    requires n <= capacity && IsFirstAtLeast(primes, n, p)
    ensures NotTooLarge(primes, capacity, p * BUCKET_NUM_FACTOR)
  {}

  lemma RoundedBound(primes: seq<nat>, capacity: nat, n: nat, b: nat)
    requires NotTooLarge(primes, capacity, n) && IsFirstAtLeast(primes, n, b)
    ensures NotTooMany(primes, capacity, b)
  {}

  lemma RoundsNext(primes: seq<nat>, k: nat)
    requires primes != []
    ensures Rounds(primes, k + 1) == FirstAtLeast(primes, Rounds(primes, k)) * BUCKET_NUM_FACTOR
  {}

  /** Doubles the size until it exceeds the capacity, then rounds up to a prime.
      With more buckets than entries exactly when the capacity is below the last
      listed prime, and never more than a listed prime of at least twice a listed prime
      the capacity does not exceed. */
  method BucketCount(primes: seq<nat>, capacity: nat) returns (bucketNum: nat)
    requires primes != [] && Ascending(primes) && primes[0] > 0
    requires capacity < BUCKET_NUM_FACTOR * primes[|primes| - 1]
    ensures bucketNum in primes && bucketNum > 0
    ensures bucketNum > capacity <==> capacity < primes[|primes| - 1]
    ensures exists k: nat :: EndsAfter(primes, capacity, k) && IsFirstAtLeast(primes, Rounds(primes, k), bucketNum)
    ensures capacity >= INIT_BUCKET_NUM ==> NotTooMany(primes, capacity, bucketNum)
  {
    hide IsFirstAtLeast, NotTooLarge, NotTooMany, FirstAtLeast, Ascending;
    var n := INIT_BUCKET_NUM;
    ghost var k := 0;
    while n <= capacity
      invariant k == 0 ==> n == INIT_BUCKET_NUM
      invariant k > 0 ==> NotTooLarge(primes, capacity, n)
      invariant n == Rounds(primes, k) && forall j: nat :: j < k ==> Rounds(primes, j) <= capacity
      decreases capacity - n
    {
      FirstAtLeastBounds(primes, n);
      DoubledBound(primes, capacity, n, FirstAtLeast(primes, n));
      RoundsNext(primes, k);
      n := FirstAtLeast(primes, n);
      n := n * BUCKET_NUM_FACTOR;
      k := k + 1;
    }
    FirstAtLeastBounds(primes, n);
    bucketNum := FirstAtLeast(primes, n);
    if k > 0 {
      RoundedBound(primes, capacity, n, bucketNum);
    }
    assert EndsAfter(primes, capacity, k);
  }

  /** At twice the last prime and beyond, no round leaves the loop. */
  lemma {:induction false} SizingDiverges(primes: seq<nat>, capacity: nat, k: nat)
    requires primes != [] && Ascending(primes) && primes[|primes| - 1] > 1
    requires capacity >= BUCKET_NUM_FACTOR * primes[|primes| - 1]
    ensures Rounds(primes, k) <= capacity
  {}
}
