/**
 A pool that rents out arrays whose lengths are powers of two and takes them back
 for reuse. Arrays are tracked by reference identity: the pool keeps, per bucket
 length, the set of free arrays of exactly that length, and one set of the arrays
 currently rented out.
 */
module Pools {
  import opened PowerOfTwo

  /** The errors the pool raises. */
  datatype PoolError =
    | ArgumentOutOfRange    // a non-positive maximum, or a length out of range
    | InvalidOperation      // no matching power of two within the maximum

  datatype Result<R> = Success(value: R) | Failure(error: PoolError)

  /** Number of arrays a bucket is filled with when it is first created. */
  const InitialArrayCount: nat := 16

  /** The largest 32-bit signed integer, the default maximum supported length. */
  const IntMaxValue: int := 0x7FFF_FFFF

  /** The pool's invariant: the maximum is a positive 32-bit signed integer, bucket keys are powers of two
      from 2 up to the maximum, every free array sits in the bucket of its own
      length, no array is both free and rented, and the bucket of every rented
      array's length exists. */
  ghost predicate PoolInvariant<T>(maxLength: int, buckets: map<int, set<array<T>>>, rented: set<array<T>>)
  {
    && 0 < maxLength <= IntMaxValue
    && (forall n :: n in buckets ==> IsPowerOfTwo(n) && 2 <= n <= maxLength)
    && (forall n, a :: n in buckets && a in buckets[n] ==> a.Length == n)
    && (forall n :: n in buckets ==> buckets[n] !! rented)
    && (forall a :: a in rented ==> a.Length in buckets)
  }

  /** Installing a new bucket of arrays of its own length, none of them rented,
      keeps the invariant. */
  lemma AddBucketPreservesInvariant<T>(maxLength: int, buckets: map<int, set<array<T>>>, rented: set<array<T>>,
                                       n: int, bucket: set<array<T>>)
    requires PoolInvariant(maxLength, buckets, rented)
    requires IsPowerOfTwo(n) && 2 <= n <= maxLength
    requires forall b :: b in bucket ==> b.Length == n && b !in rented
    ensures PoolInvariant(maxLength, buckets[n := bucket], rented)
  {
  }

  /** Moving an array of a bucket length from its bucket into the rented set keeps
      the invariant. */
  lemma RentPreservesInvariant<T>(maxLength: int, buckets: map<int, set<array<T>>>, rented: set<array<T>>,
                                  a: array<T>)
    requires PoolInvariant(maxLength, buckets, rented)
    requires a.Length in buckets
    ensures PoolInvariant(maxLength, buckets[a.Length := buckets[a.Length] - {a}], rented + {a})
  {
  }

  /** Moving a rented array back into the bucket of its length keeps the invariant. */
  lemma ReturnPreservesInvariant<T>(maxLength: int, buckets: map<int, set<array<T>>>, rented: set<array<T>>,
                                    a: array<T>)
    requires PoolInvariant(maxLength, buckets, rented)
    requires a in rented
    ensures PoolInvariant(maxLength, buckets[a.Length := buckets[a.Length] + {a}], rented - {a})
  {
  }

  /** Every array the pool holds, free or rented. */
  ghost function Held<T>(buckets: map<int, set<array<T>>>, rented: set<array<T>>): (r: set<array<T>>)
    ensures rented <= r
  {
    rented + set n, a | n in buckets && a in buckets[n] :: a
  }

  /** Renting moves an array within the pool: the arrays held afterwards are the
      ones held before plus the rented one (which is new only if it was allocated). */
  lemma RentKeepsHeldArrays<T>(buckets: map<int, set<array<T>>>, rented: set<array<T>>, a: array<T>)
    requires a.Length in buckets
    ensures Held(buckets[a.Length := buckets[a.Length] - {a}], rented + {a}) == Held(buckets, rented) + {a}
  {
    var after := buckets[a.Length := buckets[a.Length] - {a}];
    forall b | b in Held(buckets, rented) + {a} ensures b in Held(after, rented + {a}) {
      if b != a && b !in rented {
        var n :| n in buckets && b in buckets[n];
        assert b in after[n];
      }
    }
  }

  /** Returning a rented array keeps exactly the same arrays in the pool. */
  lemma ReturnKeepsHeldArrays<T>(buckets: map<int, set<array<T>>>, rented: set<array<T>>, a: array<T>)
    requires a in rented && a.Length in buckets
    ensures Held(buckets[a.Length := buckets[a.Length] + {a}], rented - {a}) == Held(buckets, rented)
  {
    var after := buckets[a.Length := buckets[a.Length] + {a}];
    forall b | b in Held(buckets, rented) ensures b in Held(after, rented - {a}) {
      if b == a {
        assert a in after[a.Length];
      } else if b !in rented {
        var n :| n in buckets && b in buckets[n];
        assert b in after[n];
      }
    }
  }

  /** Creating a bucket adds exactly its arrays to the pool. */
  lemma AddBucketHeldArrays<T>(buckets: map<int, set<array<T>>>, rented: set<array<T>>,
                               n: int, bucket: set<array<T>>)
    requires n !in buckets
    ensures Held(buckets[n := bucket], rented) == Held(buckets, rented) + bucket
  {
    var after := buckets[n := bucket];
    forall b | b in Held(buckets, rented) ensures b in Held(after, rented) {
      if b !in rented {
        var m :| m in buckets && b in buckets[m];
        assert b in after[m];
      }
    }
    forall b | b in bucket ensures b in Held(after, rented) {
      assert b in after[n];
    }
  }

  /** The bucket for length p exists and has a free array to hand out. */
  predicate HasFreeArray<T>(buckets: map<int, set<array<T>>>, p: int)
  {
    p in buckets && buckets[p] != {}
  }

  class StandaloneArrayPool<T(0)> {
    const maxSupportedLength: int

    /** Free arrays, by bucket length. */
    var freeArrays: map<int, set<array<T>>>
    /** Arrays currently rented out, of any length. */
    var rentedArrays: set<array<T>>

    /** The pool's invariant, on its fields. */
    ghost predicate Valid()
      reads this
    {
      PoolInvariant(maxSupportedLength, freeArrays, rentedArrays)
    }

    /** A new pool stores its bound and owns no arrays yet. */
    constructor (maxSupportedLength: int)
      requires 0 < maxSupportedLength <= IntMaxValue
      ensures Valid()
      ensures this.maxSupportedLength == maxSupportedLength
      ensures freeArrays == map[] && rentedArrays == {}
    {
      this.maxSupportedLength := maxSupportedLength;
      freeArrays := map[];
      rentedArrays := {};
    }

    /** A new pool with the default maximum, the largest 32-bit signed integer. */
    constructor Default()
      ensures Valid()
      ensures maxSupportedLength == IntMaxValue
      ensures freeArrays == map[] && rentedArrays == {}
    {
      maxSupportedLength := IntMaxValue;
      freeArrays := map[];
      rentedArrays := {};
    }

    /** Rents an array of at least minLength elements. */
    method Rent(minLength: int) returns (r: Result<array<T>>)
      requires Valid()
      modifies this
      ensures Valid()
      ensures r == Failure(ArgumentOutOfRange) <==> minLength <= 0 || minLength > maxSupportedLength
      ensures r == Failure(InvalidOperation) <==>
                0 < minLength <= maxSupportedLength && NoBucketWithin(minLength, maxSupportedLength)
      ensures r.Success? <==>
                0 < minLength <= maxSupportedLength && !NoBucketWithin(minLength, maxSupportedLength)
      ensures r.Failure? ==> freeArrays == old(freeArrays) && rentedArrays == old(rentedArrays)
      ensures r.Success? ==>
                && IsSmallestBucket(minLength, r.value.Length)
                && r.value.Length == BucketLength(minLength)
                && r.value.Length <= maxSupportedLength
      ensures r.Success? ==>
                && r.value !in old(rentedArrays)
                && rentedArrays == old(rentedArrays) + {r.value}
                && r.value.Length in freeArrays && r.value !in freeArrays[r.value.Length]
      ensures r.Success? && HasFreeArray(old(freeArrays), r.value.Length) ==>
                var p := r.value.Length;
                && r.value in old(freeArrays)[p]
                && freeArrays == old(freeArrays)[p := old(freeArrays)[p] - {r.value}]
      ensures r.Success? && r.value.Length in old(freeArrays) && old(freeArrays)[r.value.Length] == {} ==>
                fresh(r.value) && freeArrays == old(freeArrays)
      ensures r.Success? && r.value.Length !in old(freeArrays) ==>
                var p := r.value.Length;
                && fresh(r.value)
                && freeArrays == old(freeArrays)[p := freeArrays[p]]
                && |freeArrays[p]| == InitialArrayCount - 1
                && forall b :: b in freeArrays[p] ==> fresh(b) && b.Length == p
      ensures r.Success? && r.value.Length in old(freeArrays) ==>
                Held(freeArrays, rentedArrays) == old(Held(freeArrays, rentedArrays)) + {r.value}
      ensures r.Success? && r.value.Length !in old(freeArrays) ==>
                Held(freeArrays, rentedArrays) ==
                  old(Held(freeArrays, rentedArrays)) + freeArrays[r.value.Length] + {r.value}
    {
      if minLength <= 0 { return Failure(ArgumentOutOfRange); }
      if minLength > maxSupportedLength { return Failure(ArgumentOutOfRange); }

      var powerOfTwoLength := GetNextOrEqualPowerOfTwo(minLength);
      if powerOfTwoLength.Failure? { return Failure(powerOfTwoLength.error); }
      var p := powerOfTwoLength.value;
      var rentedArray := GetOrCreateFreeArray(p);
      ghost var taken := freeArrays;
      MarkAsRented(rentedArray);
      if p in old(freeArrays) {
        RentKeepsHeldArrays(old(freeArrays), old(rentedArrays), rentedArray);
      } else {
        UpdateTwice(old(freeArrays), p, taken[p], freeArrays[p]);
        AddBucketHeldArrays(old(freeArrays), old(rentedArrays), p, taken[p]);
        RentKeepsHeldArrays(taken, old(rentedArrays), rentedArray);
        RestoreRemoved(old(Held(freeArrays, rentedArrays)), taken[p], rentedArray);
      }
      return Success(rentedArray);
    }

    /** The bucket size for a request: the smallest power of two from 2 upwards that
        covers length, searched only up to the maximum supported length. */
    method GetNextOrEqualPowerOfTwo(length: int) returns (r: Result<int>)
      ensures r.Success? ==> IsSmallestBucket(length, r.value) && r.value <= maxSupportedLength
      ensures r.Failure? ==> r.error == InvalidOperation && NoBucketWithin(length, maxSupportedLength)
      ensures r.Success? <==> BucketLength(length) <= maxSupportedLength
      ensures r.Success? ==> r.value == BucketLength(length)
    {
      BucketLengthIsSmallestBucket(length);
      NoBucketWithinIff(length, maxSupportedLength);
      var powerOfTwo := 2;
      while powerOfTwo <= maxSupportedLength
        invariant IsPowerOfTwo(powerOfTwo) && 2 <= powerOfTwo
        invariant forall q :: IsPowerOfTwo(q) && 2 <= q < powerOfTwo ==> q < length
        decreases maxSupportedLength - powerOfTwo
      {
        if length == powerOfTwo { return Success(length); }
        if length < powerOfTwo { return Success(powerOfTwo); }
        forall q | IsPowerOfTwo(q) && 2 <= q < 2 * powerOfTwo ensures q < length {
          PowerOfTwoDichotomy(powerOfTwo, q);
        }
        DoubleIsPowerOfTwo(powerOfTwo);
        powerOfTwo := powerOfTwo * 2;
      }
      return Failure(InvalidOperation);
    }

    /** Takes any free array of the bucket for length (creating the bucket if need
        be), or allocates a new one when the bucket is empty. The array stays in
        the bucket; MarkAsRented moves it. */
    method GetOrCreateFreeArray(length: int) returns (a: array<T>)
      requires Valid() && IsPowerOfTwo(length) && 2 <= length <= maxSupportedLength
      modifies this
      ensures Valid() && rentedArrays == old(rentedArrays)
      ensures a.Length == length && length in freeArrays
      ensures freeArrays[length] != {} ==> a in freeArrays[length]
      ensures freeArrays[length] == {} ==> fresh(a)
      ensures length in old(freeArrays) ==> freeArrays == old(freeArrays)
      ensures length !in old(freeArrays) ==>
                && freeArrays == old(freeArrays)[length := freeArrays[length]]
                && |freeArrays[length]| == InitialArrayCount
                && forall b :: b in freeArrays[length] ==> fresh(b) && b.Length == length
    {
      var freeSet := GetOrCreateFreeSet(length);
      if |freeSet| > 0 {
        a :| a in freeSet;
      } else {
        a := new T[length];
      }
    }

    /** Moves a from the free bucket of its length (if it is there) into the rented set. */
    method MarkAsRented(a: array<T>)
      requires Valid() && IsPowerOfTwo(a.Length) && 2 <= a.Length <= maxSupportedLength
      modifies this
      ensures Valid()
      ensures rentedArrays == old(rentedArrays) + {a}
      ensures a.Length in old(freeArrays) ==>
                freeArrays == old(freeArrays)[a.Length := old(freeArrays)[a.Length] - {a}]
      ensures a.Length in old(freeArrays) && a !in old(freeArrays)[a.Length] ==>
                freeArrays == old(freeArrays)
      ensures a.Length in old(freeArrays) && a in old(freeArrays)[a.Length] ==>
                |freeArrays[a.Length]| == |old(freeArrays)[a.Length]| - 1
      ensures a.Length !in old(freeArrays) ==>
                && freeArrays == old(freeArrays)[a.Length := freeArrays[a.Length]]
                && |freeArrays[a.Length]| == InitialArrayCount
                && forall b :: b in freeArrays[a.Length] ==> fresh(b) && b.Length == a.Length
    {
      var freeSet := GetOrCreateFreeSet(a.Length);
      RentPreservesInvariant(maxSupportedLength, freeArrays, rentedArrays, a);
      freeArrays := freeArrays[a.Length := freeSet - {a}];
      rentedArrays := rentedArrays + {a};
      if a.Length in old(freeArrays) {
        if a in freeSet {
          assert |freeSet - {a}| == |freeSet| - 1;
        } else {
          assert freeSet - {a} == freeSet;
          UpdateSame(old(freeArrays), a.Length);
        }
      } else {
        assert a !in freeSet;
        assert freeSet - {a} == freeSet;
        UpdateTwice(old(freeArrays), a.Length, freeSet, freeSet - {a});
      }
    }

    /** The free bucket for length; on first use it is created and filled with
        InitialArrayCount new arrays of that length. */
    method GetOrCreateFreeSet(length: int) returns (freeSet: set<array<T>>)
      requires Valid() && IsPowerOfTwo(length) && 2 <= length <= maxSupportedLength
      modifies this
      ensures Valid() && rentedArrays == old(rentedArrays)
      ensures length in freeArrays && freeSet == freeArrays[length]
      ensures length in old(freeArrays) ==> freeArrays == old(freeArrays)
      ensures length !in old(freeArrays) ==>
                && freeArrays == old(freeArrays)[length := freeSet]
                && |freeSet| == InitialArrayCount
                && forall b :: b in freeSet ==> fresh(b) && b.Length == length
    {
      if length in freeArrays { return freeArrays[length]; }

      freeSet := {};
      for index := 0 to InitialArrayCount
        invariant freeArrays == old(freeArrays) && rentedArrays == old(rentedArrays)
        invariant |freeSet| == index
        invariant forall b :: b in freeSet ==> fresh(b) && b.Length == length
      {
        var b := new T[length];
        freeSet := freeSet + {b};
      }

      AddBucketPreservesInvariant(maxSupportedLength, freeArrays, rentedArrays, length, freeSet);
      freeArrays := freeArrays[length := freeSet];
    }

    /** Whether this exact array is currently rented from this pool. */
    method InRent(a: array<T>) returns (inRent: bool)
      ensures inRent <==> a in rentedArrays
    {
      inRent := a in rentedArrays;
    }

    /** Takes a rented array back into the free bucket of its length; an array that
        is not rented (returned twice, or foreign to the pool) is ignored. */
    method Return(a: array<T>)
      requires Valid()
      modifies this
      ensures Valid()
      ensures a !in rentedArrays
      ensures a !in old(rentedArrays) ==>
                freeArrays == old(freeArrays) && rentedArrays == old(rentedArrays)
      ensures a in old(rentedArrays) ==>
                && rentedArrays == old(rentedArrays) - {a}
                && a.Length in old(freeArrays)
                && freeArrays == old(freeArrays)[a.Length := old(freeArrays)[a.Length] + {a}]
      ensures Held(freeArrays, rentedArrays) == old(Held(freeArrays, rentedArrays))
    {
      if a !in rentedArrays { return; }

      ReturnPreservesInvariant(maxSupportedLength, freeArrays, rentedArrays, a);
      ReturnKeepsHeldArrays(freeArrays, rentedArrays, a);
      rentedArrays := rentedArrays - {a};
      var freeSet := GetOrCreateFreeSet(a.Length);
      freeArrays := freeArrays[a.Length := freeSet + {a}];
    }
  }

  /** Writing back a key's own value leaves a map unchanged. */
  lemma UpdateSame<K, V>(m: map<K, V>, k: K)
    requires k in m
    ensures m[k := m[k]] == m
  {
  }

  /** Overwriting a key twice keeps only the second value. */
  lemma UpdateTwice<K, V>(m: map<K, V>, k: K, v: V, v': V)
    ensures m[k := v][k := v'] == m[k := v']
  {
  }

  /** Taking x out of a set and adding it back alongside h gives h, the set and x. */
  lemma RestoreRemoved<X>(h: set<X>, s: set<X>, x: X)
    ensures h + (s - {x}) + {x} == h + s + {x}
  {
  }

  /** The constructor's error path: a non-positive maximum is rejected. */
  method TryCreate<T(0)>(maxSupportedLength: int) returns (r: Result<StandaloneArrayPool<T>>)
    requires maxSupportedLength <= IntMaxValue
    ensures r == Failure(ArgumentOutOfRange) <==> maxSupportedLength <= 0
    ensures r.Success? <==> maxSupportedLength > 0
    ensures r.Success? ==>
              && fresh(r.value) && r.value.Valid()
              && r.value.maxSupportedLength == maxSupportedLength
              && r.value.freeArrays == map[] && r.value.rentedArrays == {}
  {
    if maxSupportedLength <= 0 { return Failure(ArgumentOutOfRange); }
    var pool := new StandaloneArrayPool<T>(maxSupportedLength);
    return Success(pool);
  }
}
