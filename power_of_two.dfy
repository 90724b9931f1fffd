/**
 Powers of two and the bucket-size rounding rule of the array pool.

 A bucket size is the smallest power of two that is at least 2 and at least the
 requested length; the pool only uses it when it does not exceed the pool's
 maximum supported length.
 */
module PowerOfTwo {

  /** n is a power of two: 1, 2, 4, 8, ... (checked by repeated halving). */
  predicate IsPowerOfTwo(n: int)
    decreases n
  {
    if n < 1 then false
    else if n == 1 then true
    else n % 2 == 0 && IsPowerOfTwo(n / 2)
  }

  /** 2 raised to the power k: the reference definition of a power of two. */
  function Pow2(k: nat): (r: nat)
    ensures r >= 1
  {
    if k == 0 then 1 else 2 * Pow2(k - 1)
  }

  /** The halving test accepts every 2^k. */
  lemma {:induction false} Pow2IsPowerOfTwo(k: nat)
    ensures IsPowerOfTwo(Pow2(k))
  {
    if k > 0 {
      Pow2IsPowerOfTwo(k - 1);
      assert Pow2(k) / 2 == Pow2(k - 1);
    }
  }

  /** Every number the halving test accepts is some 2^k. */
  lemma {:induction false} PowerOfTwoHasExponent(n: int) returns (k: nat)
    requires IsPowerOfTwo(n)
    ensures Pow2(k) == n
    decreases n
  {
    if n == 1 {
      k := 0;
    } else {
      var j := PowerOfTwoHasExponent(n / 2);
      k := j + 1;
    }
  }

  /** The halving test and the exponent definition agree, in both directions. */
  lemma PowerOfTwoCharacterization(n: int)
    ensures IsPowerOfTwo(n) <==> exists k: nat :: Pow2(k) == n
  {
    if IsPowerOfTwo(n) {
      var k := PowerOfTwoHasExponent(n);
    }
    if exists k: nat :: Pow2(k) == n {
      var k: nat :| Pow2(k) == n;
      Pow2IsPowerOfTwo(k);
    }
  }

  /** Doubling a power of two gives a power of two. */
  lemma DoubleIsPowerOfTwo(p: int)
    requires IsPowerOfTwo(p)
    ensures IsPowerOfTwo(2 * p)
  {
    assert (2 * p) / 2 == p;
  }

  /** No power of two lies strictly between p and 2 * p. */
  lemma {:induction false} PowerOfTwoDichotomy(p: int, q: int)
    requires IsPowerOfTwo(p) && IsPowerOfTwo(q)
    ensures q <= p || 2 * p <= q
    decreases p
  {
    if p == 1 {
    } else if q == 1 {
    } else {
      PowerOfTwoDichotomy(p / 2, q / 2);
    }
  }

  /** p is the bucket size for a request of `length` elements: the smallest power of
      two that is at least 2 and at least `length`. */
  ghost predicate IsSmallestBucket(length: int, p: int)
  {
    && IsPowerOfTwo(p) && 2 <= p && length <= p
    && forall q :: IsPowerOfTwo(q) && 2 <= q && length <= q ==> p <= q
  }

  /** No power of two from 2 up to `maxLength` is large enough for `length`. */
  ghost predicate NoBucketWithin(length: int, maxLength: int)
  {
    forall q :: IsPowerOfTwo(q) && 2 <= q <= maxLength ==> q < length
  }

  /** The first power of two, doubling upwards from p, that is at least length. */
  function NextPowerOfTwoFrom(p: int, length: int): (r: int)
    requires IsPowerOfTwo(p) && 2 <= p
    ensures IsPowerOfTwo(r) && p <= r && length <= r
    decreases length - p
  {
    if length <= p then p
    else
      DoubleIsPowerOfTwo(p);
      NextPowerOfTwoFrom(2 * p, length)
  }

  /** The bucket length for a request, found by doubling from 2 with no upper bound. */
  function BucketLength(length: int): (r: int)
    ensures IsPowerOfTwo(r) && 2 <= r && length <= r
  {
    NextPowerOfTwoFrom(2, length)
  }

  /** Doubling from p finds the smallest power of two from p upwards that covers length. */
  lemma {:induction false} NextPowerOfTwoFromIsSmallest(p: int, length: int, q: int)
    requires IsPowerOfTwo(p) && 2 <= p
    requires IsPowerOfTwo(q) && p <= q && length <= q
    ensures NextPowerOfTwoFrom(p, length) <= q
    decreases length - p
  {
    if length > p {
      PowerOfTwoDichotomy(p, q);
      DoubleIsPowerOfTwo(p);
      NextPowerOfTwoFromIsSmallest(2 * p, length, q);
    }
  }

  /** The doubling search and the declarative rounding rule agree. */
  lemma BucketLengthIsSmallestBucket(length: int)
    ensures IsSmallestBucket(length, BucketLength(length))
  {
    forall q | IsPowerOfTwo(q) && 2 <= q && length <= q ensures BucketLength(length) <= q {
      NextPowerOfTwoFromIsSmallest(2, length, q);
    }
  }

  /** A request finds no bucket within the maximum exactly when its bucket length
      exceeds the maximum. */
  lemma NoBucketWithinIff(length: int, maxLength: int)
    ensures NoBucketWithin(length, maxLength) <==> BucketLength(length) > maxLength
  {
    BucketLengthIsSmallestBucket(length);
  }

  /** The bucket size is uniquely determined by the length. */
  lemma SmallestBucketIsUnique(length: int, p: int, p': int)
    requires IsSmallestBucket(length, p) && IsSmallestBucket(length, p')
    ensures p == p'
  {
  }

  /** Lengths 1 and 2 round to 2, 3 and 4 round to 4, 5 rounds to 8. */
  lemma SmallestBucketExamples()
    ensures IsSmallestBucket(1, 2) && IsSmallestBucket(2, 2)
    ensures IsSmallestBucket(3, 4) && IsSmallestBucket(4, 4)
    ensures IsSmallestBucket(5, 8)
  {
    assert IsPowerOfTwo(8) by { DoubleIsPowerOfTwo(4); }
    forall q | IsPowerOfTwo(q) && 3 <= q ensures 4 <= q {
      PowerOfTwoDichotomy(2, q);
    }
    forall q | IsPowerOfTwo(q) && 5 <= q ensures 8 <= q {
      PowerOfTwoDichotomy(4, q);
    }
  }

  /** A request that is within the maximum can still find no bucket: with maximum 1
      nothing fits a request of 1, and with maximum 5 nothing fits a request of 5. */
  lemma NoBucketWithinMaximumExamples()
    ensures NoBucketWithin(1, 1)
    ensures NoBucketWithin(5, 5)
  {
    forall q | IsPowerOfTwo(q) && 2 <= q <= 5 ensures q < 5 {
      PowerOfTwoDichotomy(4, q);
    }
  }

  /** When the maximum is itself a power of two of at least 2, every request of at
      most the maximum has a bucket within the maximum. */
  lemma PowerOfTwoMaximumAlwaysFits(length: int, maxLength: int)
    requires IsPowerOfTwo(maxLength) && 2 <= maxLength && length <= maxLength
    ensures !NoBucketWithin(length, maxLength)
  {
    assert IsPowerOfTwo(maxLength) && 2 <= maxLength <= maxLength;
  }
}
