# StandaloneArrayPool in Dafny

A verified model of `StandaloneArrayPool<T>`, a pool that rents out arrays and takes them back for reuse.
Callers ask for an array of at least `minLength` elements. The pool rounds that length up to a power of two (the *bucket* length). It hands out a free array of that length if it has one, and allocates a new one otherwise. Each bucket is created lazily on first use and starts with 16 fresh arrays. Arrays are tracked by reference identity. The pool keeps a map from bucket length to the set of free arrays of that length (`freeArrays`), and one set of the arrays currently rented out (`rentedArrays`). Returning an array that is not rented is a silent no-op.

Files:

- `power_of_two.dfy` (module `PowerOfTwo`): the power-of-two test, a reference definition `Pow2(k)` with a proof that the two agree, the gap lemma (no power of two lies strictly between `p` and `2p`), and the rounding rule, stated two ways. `BucketLength(length)` is the power of two found by doubling from 2 with no upper bound. `IsSmallestBucket(length, p)` says `p` is the smallest power of two that is at least 2 and at least `length`. `NoBucketWithin(length, max)` says no power of two from 2 up to `max` is large enough. Lemmas show that `BucketLength` meets `IsSmallestBucket`, and that `NoBucketWithin(length, max)` holds exactly when `BucketLength(length) > max`.
- `standalone_array_pool.dfy` (module `Pools`): the class `StandaloneArrayPool<T(0)>` with the constant `maxSupportedLength` and the two fields the source mutates in place (`freeArrays`, lines 86 and 57-64, and `rentedArrays`, line 87), the constant `InitialArrayCount` (16, line 89), the error datatype, the pool invariant `PoolInvariant` with one lemma per state change it survives, `Held` (every array the pool holds, free or rented) with lemmas that no state change loses one, and every method of the source class.
- `pool_scenarios.dfy` (module `PoolScenarios`): client methods proved from the pool's contracts alone. They cover: rent then `InRent` is true; return then `InRent` is false; double return is a no-op; returning one array leaves another of the same length rented; the argument checks; the reachable rounding failure; and holding 17 arrays of bucket length 2, where the first 16 are the bucket's initial arrays and only the 17th is new.

The pool invariant, kept by every operation, says:

- the maximum is positive and fits a 32-bit signed integer;
- every bucket key is a power of two from 2 up to the maximum;
- every free array sits in the bucket of its own length, so no array is in two buckets;
- no free array is rented;
- the bucket for every rented array's length exists.

Points where the code behaves differently from what its structure suggests; the model follows the code:

- `Rent` validates `minLength` against `MaxSupportedLength` before searching, which suggests the "matching power of two was not found" exception at line 37 is meant to be unreachable. It is reachable: the search starts at 2 and stops at the maximum. Examples: maximum 1 with `Rent(1)`, and maximum 5 with `Rent(5)`. `Rent` returns `Failure(InvalidOperation)` exactly when the request passes validation and `NoBucketWithin(minLength, maxSupportedLength)` holds. `NoBucketWithinMaximumExamples` and `ConfigurationScenario` show both examples. `PowerOfTwoMaximumAlwaysFits` shows the error cannot happen when the maximum is a power of two of at least 2 (maximum 1 is a power of two, yet `Rent(1)` fails).
- The constructor rejects a non-positive maximum with `ArgumentOutOfRangeException` (line 12), the same exception as `Rent`'s argument checks (lines 19-20). The model uses one error, `ArgumentOutOfRange`, for both.
- `Return` files the array under a bucket obtained through `GetOrCreateFreeSet`, which could create a bucket. The invariant shows that bucket always exists already, so `Return` never allocates.

## Model

| member | source | states |
|---|---|---|
| `Pools.StandaloneArrayPool.constructor` | Assets/Runtime/StandaloneArrayPool.cs:10-15 | for a positive maximum (an `int`, so at most 2^31 - 1), the pool stores it and starts with no buckets and no rented arrays, with the invariant established |
| `Pools.StandaloneArrayPool.Default` | Assets/Runtime/StandaloneArrayPool.cs:10 | with no argument the maximum is `int.MaxValue` (2^31 - 1), and the pool starts empty and valid |
| `Pools.TryCreate` | Assets/Runtime/StandaloneArrayPool.cs:10-15 | construction fails, with `ArgumentOutOfRange`, exactly when the maximum is `<= 0`, and succeeds exactly when it is positive. A success is a fresh, valid, empty pool with that maximum |
| `Pools.StandaloneArrayPool.Rent` | Assets/Runtime/StandaloneArrayPool.cs:17-27 | fails with `ArgumentOutOfRange` if and only if `minLength <= 0` or `minLength > MaxSupportedLength`. Fails with `InvalidOperation` if and only if validation passes but no power of two within the maximum fits. A failure leaves both fields unchanged. On success the result's length is `BucketLength(minLength)`: the smallest power of two `>= 2` and `>= minLength`. It is `<= MaxSupportedLength`. The result was not rented before. It is now rented, and it is in no free bucket. Previously rented arrays stay rented. A non-empty bucket gives up exactly the returned array. An empty bucket is left as it is and the result is freshly allocated. A missing bucket is created with 16 fresh arrays of that length, one of which is returned, so 15 stay free. No other bucket changes. The arrays the pool holds, free or rented, are the old ones plus the result, plus the new bucket's arrays when one was created, so no array is dropped. The invariant is kept |
| `Pools.StandaloneArrayPool.GetNextOrEqualPowerOfTwo` | Assets/Runtime/StandaloneArrayPool.cs:29-38 | it succeeds if and only if `BucketLength(length) <= MaxSupportedLength`. A success is `BucketLength(length)`, the smallest power of two that is `>= 2` and `>= length`. A failure is `InvalidOperation`, and it happens only when every power of two from 2 up to the maximum is `< length` |
| `Pools.StandaloneArrayPool.GetOrCreateFreeArray` | Assets/Runtime/StandaloneArrayPool.cs:40-44 | the result has the requested length. It is a member of the (possibly new) bucket when that bucket is non-empty, and freshly allocated when the bucket is empty. The rented set is unchanged |
| `Pools.StandaloneArrayPool.MarkAsRented` | Assets/Runtime/StandaloneArrayPool.cs:46-51 | the array is added to the rented set and removed from the bucket of its length. If it was in that bucket, the bucket shrinks by exactly one. If not, the bucket is unchanged. A missing bucket is created with 16 fresh arrays. The invariant is kept |
| `Pools.StandaloneArrayPool.GetOrCreateFreeSet` | Assets/Runtime/StandaloneArrayPool.cs:53-67 | an existing bucket is returned and nothing changes. Otherwise a bucket of exactly `InitialArrayCount` (16) distinct, freshly allocated arrays of that length is installed, and no other key changes. The rented set is unchanged and the invariant is kept |
| `Pools.StandaloneArrayPool.InRent` | Assets/Runtime/StandaloneArrayPool.cs:69-74 | true if and only if this exact array reference is in the rented set. It has no `modifies` clause, so it changes nothing |
| `Pools.StandaloneArrayPool.Return` | Assets/Runtime/StandaloneArrayPool.cs:76-84 | an array that is not rented changes nothing, which covers double returns and foreign arrays. A rented array is removed from the rented set and added to the existing bucket of its own length. Nothing else changes. Afterwards the array is not rented, the set of arrays the pool holds is unchanged, and the invariant is kept |
| `Pools.PoolInvariant` | Assets/Runtime/StandaloneArrayPool.cs:86-87 | the invariant on the two fields, as listed above. It has no contract of its own; the constructors establish it and every method keeps it |
| `Pools.StandaloneArrayPool.Valid` | Assets/Runtime/StandaloneArrayPool.cs:86-87 | `PoolInvariant` on this pool's fields |
| `Pools.Held` | Assets/Runtime/StandaloneArrayPool.cs:86-87 | every array the pool holds: the rented ones and the free ones of every bucket. It contains the rented set |
| `Pools.AddBucketPreservesInvariant` | Assets/Runtime/StandaloneArrayPool.cs:57-64 | installing a bucket whose key is a power of two from 2 up to the maximum, and whose arrays all have that length and none are rented, keeps the pool invariant |
| `Pools.RentPreservesInvariant` | Assets/Runtime/StandaloneArrayPool.cs:48-50 | moving an array from the existing bucket of its length into the rented set keeps the pool invariant |
| `Pools.ReturnPreservesInvariant` | Assets/Runtime/StandaloneArrayPool.cs:81-83 | moving a rented array into the bucket of its length keeps the pool invariant |
| `Pools.RentKeepsHeldArrays` | Assets/Runtime/StandaloneArrayPool.cs:46-51 | moving an array from its bucket into the rented set leaves the held arrays the same, plus the rented array |
| `Pools.ReturnKeepsHeldArrays` | Assets/Runtime/StandaloneArrayPool.cs:76-84 | returning a rented array leaves exactly the same arrays held by the pool: returned arrays are never dropped |
| `Pools.AddBucketHeldArrays` | Assets/Runtime/StandaloneArrayPool.cs:57-64 | creating a bucket adds exactly its arrays to the arrays the pool holds |
| `PowerOfTwo.NextPowerOfTwoFrom` | Assets/Runtime/StandaloneArrayPool.cs:31-35 | the doubling search of lines 31-35 without the upper bound: starting from a power of two `p >= 2`, the result is a power of two that is at least `p` and at least the length |
| `PowerOfTwo.BucketLength` | Assets/Runtime/StandaloneArrayPool.cs:31-35 | the doubling search started at 2, as on line 31: a power of two that is at least 2 and at least the length |
| `PowerOfTwo.NextPowerOfTwoFromIsSmallest` | Assets/Runtime/StandaloneArrayPool.cs:31-35 | doubling from a power of two `p >= 2` stops at a result no larger than any power of two `>= p` that covers the length |
| `PowerOfTwo.BucketLengthIsSmallestBucket` | Assets/Runtime/StandaloneArrayPool.cs:29-38 | the doubling search from 2 gives the smallest power of two `>= 2` and `>= length` |
| `PowerOfTwo.NoBucketWithinIff` | Assets/Runtime/StandaloneArrayPool.cs:31-37 | the exception at line 37 is raised exactly when the bucket length exceeds the maximum |
| `PowerOfTwo.PowerOfTwoDichotomy` | Assets/Runtime/StandaloneArrayPool.cs:31 | between two powers of two `p` and `q`, either `q <= p` or `2p <= q`. So doubling from 2 visits every power of two that is at least 2 |
| `PowerOfTwo.Pow2IsPowerOfTwo` | Assets/Runtime/StandaloneArrayPool.cs:31 | every `2^k` passes the power-of-two test |
| `PowerOfTwo.PowerOfTwoHasExponent` | Assets/Runtime/StandaloneArrayPool.cs:31 | every number passing the power-of-two test is `2^k` for some `k` |
| `PowerOfTwo.PowerOfTwoCharacterization` | Assets/Runtime/StandaloneArrayPool.cs:31 | the power-of-two test holds if and only if the number is `2^k` for some natural `k` |
| `PowerOfTwo.DoubleIsPowerOfTwo` | Assets/Runtime/StandaloneArrayPool.cs:31 | doubling a power of two gives a power of two |
| `PowerOfTwo.SmallestBucketIsUnique` | Assets/Runtime/StandaloneArrayPool.cs:29-38 | a request length has at most one bucket length |
| `PowerOfTwo.SmallestBucketExamples` | Assets/Runtime/StandaloneArrayPool.cs:29-38 | lengths 1 and 2 round to 2, lengths 3 and 4 round to 4, and length 5 rounds to 8 |
| `PowerOfTwo.NoBucketWithinMaximumExamples` | Assets/Runtime/StandaloneArrayPool.cs:19-22 | requests that pass validation can still find no bucket: length 1 with maximum 1, and length 5 with maximum 5 |
| `PowerOfTwo.PowerOfTwoMaximumAlwaysFits` | Assets/Runtime/StandaloneArrayPool.cs:29-38 | when the maximum is a power of two of at least 2, every request up to the maximum has a bucket within it |
| `PoolScenarios.RentAndReturnScenario` | Assets/Runtime/StandaloneArrayPool.cs:17-84 | renting makes `InRent` true and returning makes it false; a second return changes nothing; returning one array keeps another of the same length rented; `Rent(0)`, `Rent(-1)` and `Rent(17)` with maximum 16 fail with `ArgumentOutOfRange`. It has no contract; it is proved from the pool's contracts |
| `PoolScenarios.ConfigurationScenario` | Assets/Runtime/StandaloneArrayPool.cs:10-37 | maxima 0 and -5 are rejected, 16 is accepted, and `Rent(1)` with maximum 1 and `Rent(5)` with maximum 5 fail with `InvalidOperation`. It has no contract; it is proved from the pool's contracts |
| `PoolScenarios.ExhaustBucketScenario` | Assets/Runtime/StandaloneArrayPool.cs:40-67 | with maximum 16, the first 16 rentals of length 1 are exactly the bucket's initial arrays and the 17th is a new one. It has no contract; it is proved from the pool's contracts |
| `PoolScenarios.RentFromBucketOfTwo` | Assets/Runtime/StandaloneArrayPool.cs:40-51 | in a pool with maximum 16, `Rent(1)` on a non-empty bucket of length 2 returns one of that bucket's arrays and moves exactly that array to the rented set |
| `PoolScenarios.RentRestOfBucket` | Assets/Runtime/StandaloneArrayPool.cs:40-51 | after the first `Rent(1)` of a new pool with maximum 16, 15 more rentals empty the bucket of length 2. All 16 rented arrays are the bucket's initial ones, so nothing else is allocated |

## Left out

- `GetAny()` is an extension method that is not part of this model. It is modelled as an arbitrary choice from the non-empty bucket (`:|`), and no contract says which array is chosen.
- The `IArrayPool<T>` interface is not part of this model. Only the concrete class is modelled.
- The null checks in `InRent` and `Return` (lines 71 and 78) are unreachable, because Dafny's `array<T>` is non-null.
- Each bucket is a `HashSet` object that `GetOrCreateFreeSet` returns and its callers then mutate. The model keeps each bucket as a set value in the `freeArrays` map. Callers store the updated set back into the map, which has the same effect on the pool's state.
- Element contents and their default values are not modelled. No operation's bookkeeping depends on them.
- `Pools.StandaloneArrayPool.GetNextOrEqualPowerOfTwo`: does not model the 32-bit overflow of `powerOfTwo *= 2`; it uses unbounded integers. In C#, with a maximum above 2^30, a request above 2^30 overflows the loop variable. The variable becomes negative and then 0, and the loop never ends. In the model that request returns `InvalidOperation`.
- `Pools.StandaloneArrayPool.Rent`: inherits that difference. With a maximum above 2^30, `Rent(m)` for 2^30 < m <= maximum never returns in C#; the model returns `Failure(InvalidOperation)`.
- `Pools.StandaloneArrayPool.Default`: the default maximum is 2^31 - 1, so with the default pool every `Rent(m)` with 2^30 < m <= 2^31 - 1 hangs in C#, while the model returns `Failure(InvalidOperation)`.
- `Pools.StandaloneArrayPool.constructor` and `Pools.TryCreate` require the maximum to be at most 2^31 - 1, the range of a C# `int` argument; they model no other 32-bit behaviour.
- Thread safety, garbage collection and memory accounting are not modelled. The pool has no concurrency, and the number of arrays alive at the same time is not observable. `ExhaustBucketScenario` states the allocation claim through freshness: only the 17th rental returns an array outside the bucket's initial 16.
