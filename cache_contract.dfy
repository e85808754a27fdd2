/** cache/cache.go: what the two caches share. A stored value reports its size in bytes; a cache
    has two limits, a byte capacity and a maximum element count, where 0 means "no limit". */
module CacheContract {
  import opened Common

  /** A stored value and its `Size()`, taken as fixed data (cache/cache.go:58-63). */
  datatype Data<V> = Data(payload: V, size: u64)

  /** The two limits of a cache option (cache/cache.go:35-56); 0 means unlimited. */
  datatype Limits = Limits(capacity: u64, maxElements: u64)

  /** How a call ends: normally, by looping forever in the given state, or by a nil dereference. */
  datatype Status = Completed | Diverges | Panics

  /** The status of a call together with the state it ends (or loops, or crashes) in. */
  datatype Outcome<S> = Outcome(status: Status, state: S)

  /** Both limits off: `checkCapacity` returns at once and `Full` is false. */
  predicate Unlimited(l: Limits)
  {
    l.capacity == 0 && l.maxElements == 0
  }

  /** The loop condition of `checkCapacity`: some non-zero limit is exceeded. */
  predicate OverLimit(l: Limits, size: u64, count: nat)
  {
    (l.capacity != 0 && size > l.capacity) || (l.maxElements != 0 && count > l.maxElements)
  }

  /** What `checkCapacity` establishes on return: each limit is off or respected. */
  predicate WithinLimits(l: Limits, size: u64, count: nat)
  {
    (l.capacity == 0 || size <= l.capacity) && (l.maxElements == 0 || count <= l.maxElements)
  }

  /** `Full` of the LRU cache (cache/lru/lru.go:161-176). */
  function IsFull(l: Limits, size: u64, count: nat): bool
  {
    if Unlimited(l) then false
    else (l.capacity != 0 && size >= l.capacity) || (l.maxElements != 0 && count >= l.maxElements)
  }

  /** Being within the limits is exactly not exceeding them; without limits nothing is ever exceeded. */
  lemma LimitsDual(l: Limits, size: u64, count: nat)
    ensures WithinLimits(l, size, count) <==> !OverLimit(l, size, count)
    ensures Unlimited(l) ==> WithinLimits(l, size, count) && !IsFull(l, size, count)
  {
  }

  /** cache/lru/lru.go:161-176: an exceeded limit makes the cache full; a full cache within its limits
      sits exactly at one of them. */
  lemma FullSpec(l: Limits, size: u64, count: nat)
    ensures OverLimit(l, size, count) ==> IsFull(l, size, count)
    ensures IsFull(l, size, count) && WithinLimits(l, size, count) ==>
      (l.capacity != 0 && size == l.capacity) || (l.maxElements != 0 && count == l.maxElements)
    ensures !IsFull(l, size, count) ==>
      (l.capacity == 0 || size < l.capacity) && (l.maxElements == 0 || count < l.maxElements)
  {
  }
}
