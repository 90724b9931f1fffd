/**
 Client scenarios for the array pool, proved from the pool's contracts alone: rent
 and return tracking, double return, identity of arrays, the argument checks, the
 reachable rounding failure, and reuse of the 16 arrays a new bucket starts with.
 */
module PoolScenarios {
  import opened PowerOfTwo
  import opened Pools

  /** Renting marks the array as rented, returning clears it, a second return is
      ignored, and returning one array leaves another of the same length rented. */
  method RentAndReturnScenario() {
    var pool := new StandaloneArrayPool<int>(16);
    SmallestBucketExamples();

    assert !NoBucketWithin(3, 16) by { assert IsPowerOfTwo(4) && 2 <= 4 <= 16; }
    var r := pool.Rent(3);
    var a := r.value;
    SmallestBucketIsUnique(3, a.Length, 4);
    assert a.Length == 4;

    assert !NoBucketWithin(4, 16) by { assert IsPowerOfTwo(4) && 2 <= 4 <= 16; }
    r := pool.Rent(4);
    var b := r.value;
    SmallestBucketIsUnique(4, b.Length, 4);
    assert a != b && a.Length == b.Length;

    var inRent := pool.InRent(a);
    assert inRent;

    pool.Return(a);
    inRent := pool.InRent(a);
    assert !inRent;
    inRent := pool.InRent(b);
    assert inRent;

    ghost var buckets, rented := pool.freeArrays, pool.rentedArrays;
    pool.Return(a);
    assert pool.freeArrays == buckets && pool.rentedArrays == rented;

    r := pool.Rent(0);
    assert r == Failure(ArgumentOutOfRange);
    r := pool.Rent(-1);
    assert r == Failure(ArgumentOutOfRange);
    r := pool.Rent(17);
    assert r == Failure(ArgumentOutOfRange);
  }

  /** Non-positive maxima are rejected, a positive one is accepted, and a request within the maximum fails with
      InvalidOperation when its power of two exceeds the maximum. */
  method ConfigurationScenario() {
    var p0 := TryCreate<int>(0);
    assert p0 == Failure(ArgumentOutOfRange);
    var p5 := TryCreate<int>(-5);
    assert p5 == Failure(ArgumentOutOfRange);
    var p16 := TryCreate<int>(16);
    assert p16.Success? && p16.value.maxSupportedLength == 16;

    NoBucketWithinMaximumExamples();
    var one := new StandaloneArrayPool<int>(1);
    var r := one.Rent(1);
    assert r == Failure(InvalidOperation);
    var five := new StandaloneArrayPool<int>(5);
    r := five.Rent(5);
    assert r == Failure(InvalidOperation);
  }

  /** Holding 17 arrays of bucket length 2: the first 16 are the arrays the bucket
      was created with, and only the 17th is newly allocated. */
  method ExhaustBucketScenario() {
    var pool := new StandaloneArrayPool<int>(16);
    SmallestBucketExamples();
    assert !NoBucketWithin(1, 16) by { assert IsPowerOfTwo(2) && 2 <= 2 <= 16; }

    var r := pool.Rent(1);
    SmallestBucketIsUnique(1, r.value.Length, 2);
    ghost var initial := pool.freeArrays[2] + pool.rentedArrays;
    assert |initial| == InitialArrayCount;

    RentRestOfBucket(pool, initial);

    r := pool.Rent(1);
    SmallestBucketIsUnique(1, r.value.Length, 2);
    assert r.value !in initial;
    assert pool.freeArrays[2] == {};
    assert |pool.rentedArrays| == InitialArrayCount + 1;
  }

  /** Rents requests of length 1 until the bucket of length 2 is empty; every array
      handed out is one of the bucket's arrays. */
  method RentRestOfBucket(pool: StandaloneArrayPool<int>, ghost initial: set<array<int>>)
    requires pool.Valid() && pool.maxSupportedLength == 16
    requires 2 in pool.freeArrays
    requires pool.freeArrays[2] + pool.rentedArrays == initial && |pool.rentedArrays| == 1
    requires |initial| == InitialArrayCount
    modifies pool
    ensures pool.Valid() && 2 in pool.freeArrays
    ensures pool.freeArrays[2] == {} && pool.rentedArrays == initial
  {
    var i := 1;
    while i < InitialArrayCount
      invariant 1 <= i <= InitialArrayCount
      invariant pool.Valid()
      invariant 2 in pool.freeArrays
      invariant |pool.freeArrays[2]| == InitialArrayCount - i
      invariant pool.freeArrays[2] + pool.rentedArrays == initial
    {
      ghost var free, rented := pool.freeArrays[2], pool.rentedArrays;
      var a := RentFromBucketOfTwo(pool);
      MoveOne(free, rented, a);
      i := i + 1;
    }
  }

  /** A request of length 1 is served from a non-empty bucket of length 2. */
  method RentFromBucketOfTwo(pool: StandaloneArrayPool<int>) returns (a: array<int>)
    requires pool.Valid() && pool.maxSupportedLength == 16 && HasFreeArray(pool.freeArrays, 2)
    modifies pool
    ensures pool.Valid()
    ensures a in old(pool.freeArrays[2])
    ensures pool.freeArrays == old(pool.freeArrays)[2 := old(pool.freeArrays[2]) - {a}]
    ensures pool.rentedArrays == old(pool.rentedArrays) + {a}
  {
    assert IsSmallestBucket(1, 2) by { SmallestBucketExamples(); }
    assert !NoBucketWithin(1, 16) by { assert IsPowerOfTwo(2) && 2 <= 2 <= 16; }
    var r := pool.Rent(1);
    a := r.value;
    SmallestBucketIsUnique(1, a.Length, 2);
  }

  /** Moving one element between two sets keeps their union and shrinks the first. */
  lemma MoveOne<X>(from: set<X>, to: set<X>, x: X)
    requires x in from
    ensures (from - {x}) + (to + {x}) == from + to
    ensures |from - {x}| == |from| - 1
  {
  }
}
