# coconut in Dafny: caches, a sparse bitmap, a round-robin selector and gcd

This project models the core of the Go library coconut:

- cache/lru/lru.go: an LRU cache.
- cache/lfu/lfu.go: an LFU cache built on a list of frequency nodes.
- bitmap/bitmap.go: a sparse bitmap made of lazily allocated pages.
- scheduling/roundrobin/roundrobin.go: an interleaved weighted round-robin selector.
- util/gcd.go: Euclid's algorithm and its fold over a list.

It proves what each of them promises, and also what they actually do where that differs.

## Layout

| file | module | what it holds |
|---|---|---|
| `common.dfy` | `Common` | Go's `uint64` and `int` as subset types, two's-complement conversions, wrapping `+`/`-`, an `Option`, sequence helpers (`Without`, `IndexOf`, `NoDup`) |
| `cache_contract.dfy` | `CacheContract` | what the two caches share: a stored value with its `Size()`, the two limits (0 = none), and the outcome of a call |
| `gcd.dfy` | `Util` | `gcd` and `Gcd` as functions, divisibility lemmas, and the two loops as methods |
| `scheduling.dfy` | `Scheduling` | `Next` as a terminating function, a reference description of it, fairness, and the `RoundRobin` class |
| `lru.dfy` | `Lru` | the LRU state as a value, its operations, the byte-accounting lemmas, scenarios, and the `Cache` class |
| `lfu.dfy` | `Lfu` | the LFU state as a value, `increment`/`removeElement`, eviction as a relation, scenarios, and the `Cache` class |
| `bitmap.dfy` | `Bitmap` | the bitmap state as a value, `getPage` and the bit operations, `Gc`/`ClearAll`/`Capacity`, scenarios, and the `Page` and `Bitmap` classes over `array<bv8>` buffers |

Every component that mutates objects has two layers:

1. A datatype `State` with one function per operation (`SetOp`, `GetOp`, `ClearOp`, ...) and the lemmas about them.
2. A class whose fields are the Go struct's fields. Each method's `ensures` ties `View()` after the call to the function applied to `old(View())`.

The lemmas about the functions therefore carry over to the objects.

## How the source behaves, as modelled

**Integer widths.**
- The caches' byte counters are `uint64`. `+=` and `-=` wrap modulo 2^64 (`AddU64`, `SubU64`).
- The bitmap's counters and the selector's weights are Go `int`s on a 64-bit platform (`AddI64`, `SubI64`).
- `uint(w)` and `int(g)` reinterpret the bits in two's complement (`ToUint`, `ToInt`).

**Calls that never end or crash.** The caches' capacity check loops forever when a limit is still exceeded and nothing more can be evicted. The LFU cache can also dereference a nil entry. The models return an `Outcome` whose `Status` is `Completed`, `Diverges` (the loop never ends; the state is the one it spins in) or `Panics`.

**LRU.**
- `Set` of a present key moves it to the front and replaces its data. It does not re-account the byte counter and does not run the capacity check.
- So a replacement by data of another size leaves the counter stale. A later `Delete` can wrap it past zero, and the next capacity check then hangs on an empty cache (`ReplacementDrift`).
- Under a counter that is exact and does not overflow, the counter stays exact and the capacity check always returns (`ShrinkAccounted`, `SetAccounted`, `DeleteAccounted`).

**LFU.**
- `increment` moves an entry into the next frequency node. When that node already exists, the key is not removed from the node it leaves, so stale keys stay filed in old nodes.
- `Set` never adds to the byte counter, but removal subtracts.
- Go ranges over a map in an unspecified order, so eviction picks any key of the head node. It is modelled as a relation on outcomes (`EvictsTo`, `Shrinks`), and the class methods are proved to produce one of the allowed outcomes.
- Consequences:
  - In the sequence of cache/lfu/lfu_test.go, the third `Set` may evict the twice-used key 2 instead of key 3 (`StaleKeyEvicted`). Only one of the two outcomes keeps both keys the test expects.
  - After a `Delete`, a stale key makes `Evict` crash (`StaleKeyPanics`).
  - The counter wraps, and the capacity check then hangs (`SizeWrapDiverges`).

**Bitmap.**
- Bits are numbered from 1. A page covers 8 × 4096 bits.
- `getPage` walks the list and splices a new page in after the page it stopped at, never in front of the first page. So the first page may carry a larger id than the pages after it: `Ordered` demands ascending ids only from position 1.
- `Capacity` reads the last page of the list. When the first page is out of order it under-reports (`FirstPageOutOfOrder`).
- The counters count requests, not set bits (`SizeCounter`):
  - `Clear` of a bit whose page is missing creates that page with counter -1, which nothing ever recycles (`ClearSplicesPage`).
  - `Clear` of an unset bit can bring a page's counter to 0 and, with AutoRecycle on, unlink a page that still holds a set bit (`ClearLosesBit`).

**Round robin.**
- `Next` is modelled as the whole loop, which can also return nil.
- On a wrap, the threshold drops by the gcd of the weights (0 for fewer than two nodes, or when a weight is 0). Once the threshold is no longer positive, it is reset to the largest weight. When the reset finds a largest weight of 0, that call yields nil. This holds in one direction only: nil implies that no weight is positive (`SearchResult`), but no positive weight does not imply nil. With all weights 0, the call after a nil returns a node of weight 0 (`ZeroWeightsAlternate`).
- `Next` terminates from every state it can leave behind (`NextKeepsReachable`).
- With a positive weight it never yields nil (`NextWithPositiveWeight`). It matches a direct description (`NextMatchesRef`) and picks every node eventually (`EveryNodeEventuallyPicked`).

**gcd.** The source's convention is that a zero argument, or fewer than two numbers, gives 0. Otherwise the result is the greatest common divisor (`PairGcdSpec`, `GcdOfIsGcd`, `GcdOfZeroIff`).

**Where the source files disagree.** The test files call `lru.New` and `lfu.New` with two numbers, and give `Size()` an `int` result. cache/lru/lru.go reads lower-case option fields that cache/lru/option.go does not declare. The model follows the code of lru.go and lfu.go: a constructor taking an optional pair of limits, and a `uint64` size per stored value.

## Model

| member | source | states |
|---|---|---|
| Common.ToUint | scheduling/roundrobin/roundrobin.go:36 | `uint(x)` keeps a non-negative int and adds 2^64 to a negative one |
| Common.ToInt | scheduling/roundrobin/roundrobin.go:59 | `int(x)` keeps a uint below 2^63 and subtracts 2^64 from a larger one |
| Common.AddU64 | cache/lru/lru.go:62 | uint64 addition is exact below 2^64 and wraps by 2^64 above |
| Common.SubU64 | cache/lru/lru.go:83 | uint64 subtraction is exact when no borrow occurs and wraps by 2^64 otherwise |
| Common.AddI64 | bitmap/bitmap.go:149 | int addition is exact in range and wraps by 2^64 on overflow in either direction |
| Common.SubI64 | bitmap/bitmap.go:152 | int subtraction is exact in range and wraps by 2^64 on overflow in either direction |
| Common.Without | cache/lru/lru.go:84 | removing an element from the list keeps exactly the other elements, in order and without duplicates |
| Common.WithoutKeepsOrder | cache/lru/lru.go:49 | after a removal the remaining keys keep their relative order |
| CacheContract.LimitsDual | cache/lru/lru.go:127-136 | being within the limits is exactly not exceeding one; with both limits 0 nothing is exceeded and the cache is never full |
| CacheContract.FullSpec | cache/lru/lru.go:161-176 | an exceeded limit means full; full within the limits means sitting exactly at a limit; not full means strictly below every limit |
| Util.Remainders | util/gcd.go:21-25 | definition; no contract of its own; properties in `RemaindersIsGcd` |
| Util.PairGcd | util/gcd.go:17-26 | definition; no contract of its own; properties in `PairGcdSpec` and `GcdUnique` |
| Util.Fold | util/gcd.go:10-12 | definition; no contract of its own; properties in `FoldZero` and `FoldIsGcd` |
| Util.GcdOf | util/gcd.go:3-15 | definition; no contract of its own; properties in `GcdOfZeroIff`, `GcdOfIsGcd` and `GcdOfExamples` |
| Util.RemaindersIsGcd | util/gcd.go:21-25 | the swap loop from a positive `a` ends in a positive greatest common divisor of `a` and `b` |
| Util.PairGcdSpec | util/gcd.go:17-26 | `gcd(a, b)` is 0 exactly when an argument is 0, and otherwise a greatest common divisor no larger than either argument |
| Util.GcdUnique | util/gcd.go:17-26 | two greatest common divisors of the same pair are equal, so the result is determined |
| Util.FoldZero | util/gcd.go:10-12 | the fold stays at 0 from 0; from a positive start it ends at 0 exactly when it meets a 0 |
| Util.FoldIsGcd | util/gcd.go:10-12 | folding a positive gcd of a prefix over positive numbers gives the gcd of the whole list |
| Util.GcdOfZeroIff | util/gcd.go:3-15 | with two or more numbers, `Gcd` is 0 exactly when one of them is 0 |
| Util.GcdOfIsGcd | util/gcd.go:3-15 | with two or more positive numbers, `Gcd` is positive and is the greatest common divisor of all of them |
| Util.GcdOfExamples | util/gcd_test.go:8-26 | the five expected results of the test, including 0 for a list holding 0 |
| Util.Euclid | util/gcd.go:17-26 | the loop returns 0 for a zero argument and otherwise a positive gcd bounded by both arguments |
| Util.Gcd | util/gcd.go:3-15 | the loop returns 0 for fewer than two numbers, 0 exactly when a 0 is present, and otherwise the gcd of all |
| Scheduling.MaxOf | scheduling/roundrobin/roundrobin.go:42-52 | the running maximum from 0 is never negative; the rest is in `MaxOfSpec` |
| Scheduling.GcdWeight | scheduling/roundrobin/roundrobin.go:32-40 | definition; no contract of its own; properties in `GcdWeightBounds` and `GcdWeightPositive` |
| Scheduling.UintWeights | scheduling/roundrobin/roundrobin.go:33-37 | one `uint` per node, each the two's-complement image of its weight |
| Scheduling.MaxOfSpec | scheduling/roundrobin/roundrobin.go:42-52 | `maxWeight` is non-negative, bounds every weight, and is a weight unless it is 0 |
| Scheduling.GcdWeightBounds | scheduling/roundrobin/roundrobin.go:32-40 | with a positive largest weight, the gcd used by `Next` lies in [0, largest weight] |
| Scheduling.GcdWeightPositive | scheduling/roundrobin/roundrobin.go:32-40 | with two or more positive weights, the gcd is positive and bounded by every weight |
| Scheduling.Succ | scheduling/roundrobin/roundrobin.go:56 | the next index stays in range and equals `(index + 1) % len` |
| Scheduling.Search | scheduling/roundrobin/roundrobin.go:54-75 | the loop of `Next` terminates from an admissible state, leaving a valid index and a non-negative threshold |
| Scheduling.SearchResult | scheduling/roundrobin/roundrobin.go:54-75 | nil only when no weight is positive; a returned node is the new index and meets the new threshold; the threshold stays in [0, largest weight] |
| Scheduling.NextKeepsReachable | scheduling/roundrobin/roundrobin.go:54-75 | from any state `Next` can leave behind, the next call terminates and leaves such a state again |
| Scheduling.NegativeWeightsGiveNil | scheduling/roundrobin/roundrobin.go:59-66 | with all weights negative, `Next` returns nil |
| Scheduling.NoPositiveWeight | scheduling/roundrobin/roundrobin.go:61-72 | with no positive weight the threshold becomes 0 and any returned node has weight 0 |
| Scheduling.ZeroWeightsAlternate | scheduling/roundrobin/roundrobin.go:58-72 | with two nodes of weight 0, the first call returns nil and the next returns the second node |
| Scheduling.FirstFrom | scheduling/roundrobin/roundrobin.go:70-72 | the first position at or after a start whose weight meets a threshold, all positions before it missing it, or none |
| Scheduling.NextRef | scheduling/roundrobin/roundrobin.go:54-75 | reference description of `Next`, independent of its loop; no contract of its own; related to `Search` by `NextMatchesRef` |
| Scheduling.SearchScan | scheduling/roundrobin/roundrobin.go:55-72 | without a wrap, `Next` returns the first later node meeting the threshold |
| Scheduling.NextMatchesRef | scheduling/roundrobin/roundrobin.go:54-75 | with a positive weight, `Next` equals the reference (next later node meeting the threshold, else the first meeting the lowered one) and returns a node |
| Scheduling.NextWithPositiveWeight | scheduling/roundrobin/roundrobin.go:56-72 | with a positive weight, `Next` never yields nil and keeps 0 < threshold <= largest weight |
| Scheduling.EqualWeightsCycle | scheduling/roundrobin/roundrobin_test.go:18-36 | with equal positive weights, `Next` visits the nodes in plain cyclic order |
| Scheduling.FourEqualNodes | scheduling/roundrobin/roundrobin_test.go:18-36 | four nodes of weight 1 come out as 1,2,3,4,1,2,3,4 |
| Scheduling.EveryNodeEventuallyPicked | scheduling/roundrobin/roundrobin_test.go:38-58 | with two or more positive weights, every node is returned by some finite number of calls |
| Scheduling.RoundRobin.constructor | scheduling/roundrobin/roundrobin.go:18-30 | the nodes are copied in order, with index -1 and weight 0 |
| Scheduling.RoundRobin.Gcd | scheduling/roundrobin/roundrobin.go:32-40 | the gcd of the weights converted to `uint` |
| Scheduling.RoundRobin.MaxWeight | scheduling/roundrobin/roundrobin.go:42-52 | the largest weight, or 0 when none is positive |
| Scheduling.RoundRobin.Next | scheduling/roundrobin/roundrobin.go:54-75 | the loop returns the pick and leaves the index and threshold that `Search` gives |
| Lru.MoveToFront | cache/lru/lru.go:49 | definition; no contract of its own; properties in `MoveToFrontKeepsOrder` and `MoveToFrontTotal` |
| Lru.Inserted | cache/lru/lru.go:54-62 | definition; no contract of its own; properties in `SetNew` and `InsertAccounted` |
| Lru.EvictTail | cache/lru/lru.go:140-146 | definition; no contract of its own; properties in `EvictTailInv` and `EvictTailAccounted` |
| Lru.EvictN | cache/lru/lru.go:138-148 | the limits are kept; what it removes is in `EvictSpec` and `EvictNBack` |
| Lru.SetOp | cache/lru/lru.go:44-64 | definition; no contract of its own; properties in `SetPresent`, `SetNew`, `FullAfterSet` and `SetAccounted` |
| Lru.GetOp | cache/lru/lru.go:66-76 | definition; no contract of its own; properties in `GetSpec` and `AccountingKept` |
| Lru.DeleteOp | cache/lru/lru.go:78-87 | definition; no contract of its own; properties in `DeleteSpec` and `DeleteAccounted` |
| Lru.SetCapacityOp | cache/lru/lru.go:110-116 | definition; no contract of its own; properties in `ShrinkSpec`, through which it runs the capacity check |
| Lru.InvCount | cache/lru/lru.go:96-101 | the element count is both the size of the map and the length of the list |
| Lru.EvictTailInv | cache/lru/lru.go:140-146 | a non-empty cache has a back key, and removing it keeps list and map in step |
| Lru.Shrink | cache/lru/lru.go:127-136 | the capacity check keeps a subset of the entries with their data; on return every limit holds; it hangs only on an empty cache over its byte capacity |
| Lru.ShrinkPrefix | cache/lru/lru.go:132-135 | the capacity check only takes keys off the back: what remains is a prefix of the list |
| Lru.ClearOp | cache/lru/lru.go:118-125 | no entries, counter 0, limits unchanged |
| Lru.SetPresent | cache/lru/lru.go:48-52 | re-setting a key moves it to the front with the new data; counter, count and the other keys' order are unchanged; nothing is evicted |
| Lru.SetNew | cache/lru/lru.go:54-63 | a new key adds one element and its size; the capacity check keeps a prefix of the list and stored data; the survivor is at the front; nothing is evicted without limits |
| Lru.GetSpec | cache/lru/lru.go:66-76 | a hit returns the data and moves the key to the front, the others keeping their order; a miss changes nothing |
| Lru.MoveToFrontKeepsOrder | cache/lru/lru.go:71 | behind the moved key the other keys keep their relative order |
| Lru.DeleteSpec | cache/lru/lru.go:78-87 | a present key leaves list and map with its size subtracted; an absent key changes nothing |
| Lru.EvictSpec | cache/lru/lru.go:138-159 | `Evict(n)` removes min(n, count) keys from the back of the list (none for n <= 0) and keeps the data of the rest |
| Lru.EvictNBack | cache/lru/lru.go:138-148 | the loop of `evictElement` takes exactly the last min(n, count) keys |
| Lru.ShrinkSpec | cache/lru/lru.go:127-136 | without limits the capacity check does nothing; on return the limits hold; a hang leaves an empty cache |
| Lru.FullAfterSet | cache/lru/lru.go:161-176 | after a completed `Set` of a new key, a full cache sits exactly at one of its limits |
| Lru.TotalSizeWithout | cache/lru/lru.go:83-85 | removing a key reduces the sum of stored sizes by exactly its size |
| Lru.EvictTailAccounted | cache/lru/lru.go:140-146 | evicting the back key keeps an exact counter exact |
| Lru.ShrinkAccounted | cache/lru/lru.go:127-136 | with an exact counter the capacity check keeps it exact and always returns |
| Lru.AccountingKept | cache/lru/lru.go:66-76 | `Get` and `Clear` keep an exact counter exact |
| Lru.DeleteAccounted | cache/lru/lru.go:78-87 | `Delete` keeps an exact counter exact |
| Lru.SetAccounted | cache/lru/lru.go:44-64 | `Set` keeps the counter exact when a replacement has the same size, or when a new key does not overflow it; the capacity check then returns |
| Lru.MoveToFrontTotal | cache/lru/lru.go:48-50 | a replacement changes the true total by the difference of the sizes, which the counter does not follow |
| Lru.InsertAccounted | cache/lru/lru.go:54-63 | a new key that does not overflow the counter keeps it exact, and the capacity check returns |
| Lru.ReplacementDrift | cache/lru/lru.go:48-52 | re-setting data of another size leaves the counter stale; deleting then wraps it, and the next `Set` hangs |
| Lru.OversizedEntryEvicted | cache/lru/lru.go:127-136 | a single entry larger than the capacity is evicted at once, leaving the counter at 0 |
| Lru.EvictScenario | cache/lru/lru_test.go:64-100 | with at most two elements the counts are 1, 2, 2 (keys 3 and 2 kept), then 1 and 0 after each `Evict(1)` |
| Lru.BasicScenario | cache/lru/lru_test.go:16-62 | a stored item is read back and counted; capacity is updated; after `Delete` the size is 0 and `Get` misses |
| Lru.Cache.constructor | cache/lru/lru.go:28-42 | an empty cache with an exact counter and a copy of the option's limits (none for nil) |
| Lru.Cache.Set | cache/lru/lru.go:44-64 | the new state and status are those of `SetOp` |
| Lru.Cache.Get | cache/lru/lru.go:66-76 | the result and new state are those of `GetOp` |
| Lru.Cache.Delete | cache/lru/lru.go:78-87 | the new state is that of `DeleteOp` |
| Lru.Cache.Size | cache/lru/lru.go:89-94 | returns the byte counter |
| Lru.Cache.ElementsCount | cache/lru/lru.go:96-101 | returns the number of keys, equal to the list's length |
| Lru.Cache.Capacity | cache/lru/lru.go:103-108 | returns the byte capacity |
| Lru.Cache.SetCapacity | cache/lru/lru.go:110-116 | sets the capacity, then runs the capacity check as `Shrink` does |
| Lru.Cache.Clear | cache/lru/lru.go:118-125 | the new state is that of `ClearOp` |
| Lru.Cache.CheckCapacity | cache/lru/lru.go:127-136 | the loop evicts from the back as `Shrink` does, returning `Diverges` where the source spins |
| Lru.Cache.EvictElement | cache/lru/lru.go:138-148 | the loop performs the evictions of `EvictN` |
| Lru.Cache.RemoveBack | cache/lru/lru.go:140-146 | one round removes the back key from list and map and subtracts its size |
| Lru.Cache.Evict | cache/lru/lru.go:150-159 | nothing for n <= 0, otherwise the evictions of `EvictN` |
| Lru.Cache.Full | cache/lru/lru.go:161-176 | false without limits, otherwise whether a limit is met or exceeded |
| Lfu.Incremented | cache/lfu/lfu.go:188-223 | definition; no contract of its own; properties in `IncrementSpec` |
| Lfu.Removed | cache/lfu/lfu.go:148-162 | definition; no contract of its own; properties in `RemoveSpec` |
| Lfu.EvictsTo | cache/lfu/lfu.go:164-175 | the allowed outcomes of `evictElement`, one per choice of victim; no contract of its own; properties in `EvictSpec`, `EvictTotal` and `VictimFromHead` |
| Lfu.Shrinks | cache/lfu/lfu.go:177-186 | the allowed outcomes of the capacity check; no contract of its own; properties in `ShrinkSpec` and `ShrinkTotal` |
| Lfu.SetTouch | cache/lfu/lfu.go:59-70 | definition; no contract of its own; properties in `SetSpec` |
| Lfu.GetOp | cache/lfu/lfu.go:75-85 | definition; no contract of its own; properties in `GetSpec` |
| Lfu.DeleteOp | cache/lfu/lfu.go:87-95 | definition; no contract of its own; properties in `DeleteSpec` |
| Lfu.ClearOp | cache/lfu/lfu.go:126-134 | empty list, no entries, counter 0, limits unchanged |
| Lfu.HeadIsLeast | cache/lfu/lfu.go:166-168 | with a live entry, the head node exists and has the smallest frequency of every entry's parent |
| Lfu.IncrementSpec | cache/lfu/lfu.go:188-223 | `increment` keeps the invariant, gives the entry the new data and frequency +1 (1 for a new key), and changes no other entry, the counter or the limits |
| Lfu.RemoveSpec | cache/lfu/lfu.go:148-162 | `removeElement` drops the entry and subtracts its size; the parent node goes exactly when it filed only that key |
| Lfu.EvictSpec | cache/lfu/lfu.go:164-175 | every outcome of `Evict(n)` keeps the invariant and a subset of entries (at most n fewer), never hangs, and crashes only on a head-node key without an entry |
| Lfu.EvictTotal | cache/lfu/lfu.go:164-175 | every call of `evictElement` has an outcome |
| Lfu.VictimFromHead | cache/lfu/lfu.go:166-171 | the victim comes from the head node, and is a least frequently used entry when it lives there |
| Lfu.ShrinkSpec | cache/lfu/lfu.go:177-186 | every outcome of the capacity check keeps a subset of entries; on return the limits hold; it hangs only over a limit with no entry or an empty head node, and crashes only on a stale head-node key |
| Lfu.ShrinkTotal | cache/lfu/lfu.go:177-186 | every capacity check has an outcome |
| Lfu.SetSpec | cache/lfu/lfu.go:59-72 | `Set` stores the data with one more access (a new key adds one element), keeps the other entries, and leaves the counter alone |
| Lfu.GetSpec | cache/lfu/lfu.go:75-85 | a hit returns the data and counts one access; a miss changes nothing |
| Lfu.DeleteSpec | cache/lfu/lfu.go:87-95 | a present key is removed with its size subtracted, its node dropped when emptied; an absent key changes nothing |
| Lfu.TwoSetsTwoGets | cache/lfu/lfu_test.go:31-35 | the exact states after two `Set`s and one `Get` of each key, each within the limits |
| Lfu.StaleKeyEvicted | cache/lfu/lfu_test.go:37-59 | the third `Set` ends in exactly one of two states; in one of them the twice-used key 2 is evicted and its `Get` misses |
| Lfu.StaleKeyPanics | cache/lfu/lfu.go:164-175 | after deleting key 2, its stale copy in the head node makes every outcome of `Evict(1)` a crash |
| Lfu.SizeWrapDiverges | cache/lfu/lfu.go:177-186 | set, delete, set: the counter wraps past the capacity and the capacity check hangs on an empty cache |
| Lfu.Cache.constructor | cache/lfu/lfu.go:39-53 | an empty cache with a copy of the option's limits (none for nil) |
| Lfu.Cache.Increment | cache/lfu/lfu.go:188-223 | the new state is that of `Incremented` |
| Lfu.Cache.RemoveElement | cache/lfu/lfu.go:148-162 | the new state is that of `Removed` |
| Lfu.Cache.EvictElement | cache/lfu/lfu.go:164-175 | status and new state are one of the allowed outcomes `EvictsTo` |
| Lfu.Cache.EvictRound | cache/lfu/lfu.go:166-172 | one round removes an arbitrary head-node key, or crashes on a key without an entry, leading to an allowed outcome |
| Lfu.Cache.CheckCapacity | cache/lfu/lfu.go:177-186 | status and new state are one of the allowed outcomes `Shrinks` |
| Lfu.Cache.ShrinkOnce | cache/lfu/lfu.go:184 | one `evictElement(1)` shrinks the map or crashes, leading to an allowed outcome of the capacity check |
| Lfu.Cache.Set | cache/lfu/lfu.go:55-73 | the result is an allowed outcome of the capacity check after `SetTouch` |
| Lfu.Cache.Get | cache/lfu/lfu.go:75-85 | the result and new state are those of `GetOp` |
| Lfu.Cache.Delete | cache/lfu/lfu.go:87-95 | the new state is that of `DeleteOp` |
| Lfu.Cache.Size | cache/lfu/lfu.go:97-102 | returns the byte counter |
| Lfu.Cache.ElementsCount | cache/lfu/lfu.go:104-109 | returns the number of entries |
| Lfu.Cache.Capacity | cache/lfu/lfu.go:111-116 | returns the byte capacity |
| Lfu.Cache.SetCapacity | cache/lfu/lfu.go:118-124 | sets the capacity, then has an allowed outcome of the capacity check |
| Lfu.Cache.Clear | cache/lfu/lfu.go:126-134 | the new state is that of `ClearOp` |
| Lfu.Cache.Evict | cache/lfu/lfu.go:136-146 | nothing for n <= 0, otherwise an allowed outcome of `evictElement` |
| Bitmap.Init | bitmap/bitmap.go:70-81 | definition; no contract of its own; properties in `Bitmap.Bitmap.constructor`, whose view it is |
| Bitmap.NewOption | bitmap/bitmap.go:61-67 | the option carries the given capacity and flags |
| Bitmap.PageIndex | bitmap/bitmap.go:93-99 | the page of bit n is (n - 1) / bits-per-page, so page r covers bits r·B+1 to (r+1)·B |
| Bitmap.ByteIndex | bitmap/bitmap.go:146 | the byte index lies inside the page |
| Bitmap.BitIndex | bitmap/bitmap.go:148 | the bit index is (n - 1) mod 8 |
| Bitmap.AddressOf | bitmap/bitmap.go:93-99 | page, byte and bit recompose n - 1, and two bit numbers share an address exactly when they are equal |
| Bitmap.MaskFacts | bitmap/bitmap.go:146-152 | OR-ing the mask sets the bit, AND-NOT clears it, and the other bits of the byte are untouched |
| Bitmap.Find | bitmap/bitmap.go:108-125 | the walk hits a page with the id, or misses at a place after the page it started from |
| Bitmap.FindSpec | bitmap/bitmap.go:108-135 | on an ordered list the walk hits exactly when the id is present, and a miss leaves a place where splicing keeps the list ordered |
| Bitmap.GetPageOp | bitmap/bitmap.go:101-135 | a found position holds the page of bit n; page shapes, the counter and the options are kept |
| Bitmap.GetPageSpec | bitmap/bitmap.go:101-135 | a refused bit changes nothing and finds nothing; without create nothing changes and a page is found iff present; with create a page is always found, a blank one spliced in when missing |
| Bitmap.Flip | bitmap/bitmap.go:146-152 | updating a page keeps its id and its size in bytes |
| Bitmap.FlipBits | bitmap/bitmap.go:146-152 | after the update bit n reads as requested and every other bit of the page as before |
| Bitmap.TestMeaning | bitmap/bitmap.go:162-175 | bit n tests as set exactly when it is not refused and the page with its index has it set |
| Bitmap.TestOp | bitmap/bitmap.go:162-175 | definition; no contract of its own; properties in `TestMeaning` |
| Bitmap.SetBitOp | bitmap/bitmap.go:137-159 | `setBitInPage` keeps page shapes, the counter and the options |
| Bitmap.Apply | bitmap/bitmap.go:144-158 | the update keeps page shapes, the counter and the options; the rest is in `ApplyTests` and `PageCounters` |
| Bitmap.SetOp | bitmap/bitmap.go:187-193 | definition; no contract of its own; properties in `SetThenTest`, `PageCounters` and `SizeCounter` |
| Bitmap.ClearOp | bitmap/bitmap.go:178-184 | definition; no contract of its own; properties in `ClearThenTest`, `PageCounters`, `ClearRecycles` and `SizeCounter` |
| Bitmap.RemoveTest | bitmap/bitmap.go:154-156 | unlinking a page loses every bit of its id and no other |
| Bitmap.CreateKeepsTests | bitmap/bitmap.go:126-133 | splicing in a blank page changes no bit |
| Bitmap.SetBitSpec | bitmap/bitmap.go:137-159 | a refused bit changes nothing; otherwise bit n reads as requested, bits of other pages are kept, and a clear never sets a bit |
| Bitmap.SetThenTest | bitmap/bitmap.go:187-193 | after `Set(n)` bit n is set unless refused, and no other bit changes |
| Bitmap.ClearThenTest | bitmap/bitmap.go:178-184 | after `Clear(n)` bit n is clear, no bit becomes set, and other pages' bits (all other bits without AutoRecycle) are kept |
| Bitmap.CutPages | bitmap/bitmap.go:155 | unlinking a page leaves no page with its id and every other page in place |
| Bitmap.UpdatePages | bitmap/bitmap.go:146-152 | updating a page in place makes it the page of its id and leaves every other page |
| Bitmap.InsertPages | bitmap/bitmap.go:118-134 | splicing in a page with a new id makes it the page of that id and leaves every other page |
| Bitmap.PageCounters | bitmap/bitmap.go:137-159 | after an accepted `Set` or `Clear`, the page of bit n (a blank one when missing) has the bit updated and its counter moved up or down by one, whether or not the bit changed, or is unlinked when a clear brings that counter to 0 with AutoRecycle on; every other page is as it was |
| Bitmap.ClearRecycles | bitmap/bitmap.go:150-156 | with AutoRecycle on, an accepted `Clear(n)` leaves no page of n exactly when that page was listed with counter 1 |
| Bitmap.RefusedBit | bitmap/bitmap.go:102-104 | with AutoExpand off, a bit beyond the capacity moves only the counter and never tests as set |
| Bitmap.SizeCounter | bitmap/bitmap.go:219-224 | the counter counts `Set` and `Clear` requests, refused or not; `ClearAll` resets it and `Gc` keeps it |
| Bitmap.Wiped | bitmap/bitmap.go:206-210 | a wiped page keeps its id and has counter 0 and all bytes 0 |
| Bitmap.ClearAllOp | bitmap/bitmap.go:196-216 | `ClearAll` keeps the number of pages and the options and wipes each page |
| Bitmap.ClearAllSpec | bitmap/bitmap.go:196-216 | after `ClearAll` the list stays well formed, all counters are 0, no bit is set, and `Capacity` is unchanged |
| Bitmap.LiveMembers | bitmap/bitmap.go:231-241 | the pages kept by `Gc` are exactly the listed pages with a non-zero counter |
| Bitmap.Live | bitmap/bitmap.go:231-241 | the pages `Gc` keeps are never more than the listed ones; the rest is in `LiveMembers` and `GcSpec` |
| Bitmap.GcOp | bitmap/bitmap.go:227-243 | definition; no contract of its own; properties in `GcSpec` and `GcTests` |
| Bitmap.LiveSnoc | bitmap/bitmap.go:233-238 | the walk decides each page by its counter alone |
| Bitmap.GcSpec | bitmap/bitmap.go:227-243 | `Gc` keeps exactly the pages with a non-zero counter, keeps the list well formed, is idempotent, and sets no bit |
| Bitmap.CapacityCovers | bitmap/bitmap.go:246-260 | every set bit lies within `Capacity`, except in a first page that is not also the last, or past the range of `int` |
| Bitmap.CapacityOp | bitmap/bitmap.go:246-260 | definition; no contract of its own; properties in `CapacityCovers` and `ClearAllSpec` |
| Bitmap.DefaultScenario | bitmap/bitmap_test.go:11-33 | with default options: one request counted, one page of capacity, `Clear` resets the counter and recycles the page, `ClearAll` keeps the capacity |
| Bitmap.AutoExpandOffScenario | bitmap/bitmap_test.go:69-83 | with AutoExpand off and capacity 10, bit 100 is refused and bit 4 is set |
| Bitmap.AutoRecycleScenario | bitmap/bitmap_test.go:85-125 | bit 100000 is set beyond the capacity; clearing it unlinks its page with AutoRecycle, keeps it without, and `Gc` then unlinks it |
| Bitmap.OnEmpty | bitmap/bitmap.go:127-134 | on an empty list, setting or clearing a bit gives exactly one updated page |
| Bitmap.BehindFirst | bitmap/bitmap.go:108-134 | with one page listed, a new page goes after it whatever its id |
| Bitmap.FirstPageOutOfOrder | bitmap/bitmap.go:108-135 | `Set(40000)` then `Set(1)` lists page 1 before page 0, and `Capacity` reports one page of bits while bit 40000 is set |
| Bitmap.ClearSplicesPage | bitmap/bitmap.go:137-159 | `Clear` on an empty bitmap creates a page with counter -1 that `Gc` keeps |
| Bitmap.ClearLosesBit | bitmap/bitmap.go:144-158 | after `Set(1)`, `Clear(2)` unlinks the page and bit 1 is lost |
| Bitmap.Page.constructor | bitmap/bitmap.go:84-91 | a fresh zeroed buffer of 4096 bytes with the given id and counter 0 |
| Bitmap.Page.Wipe | bitmap/bitmap.go:206-210 | every byte of the buffer and the counter become 0 |
| Bitmap.Bitmap.constructor | bitmap/bitmap.go:70-81 | an empty bitmap, counter 0, the given options or AutoExpand and AutoRecycle on with capacity 0 |
| Bitmap.Bitmap.GetPage | bitmap/bitmap.go:101-135 | the walk returns the position and new state of `GetPageOp`, changing nothing without create |
| Bitmap.Bitmap.Splice | bitmap/bitmap.go:118-120 | a new blank page is inserted at the given place and found there |
| Bitmap.Bitmap.SetBitInPage | bitmap/bitmap.go:137-159 | the new state is that of `SetBitOp` |
| Bitmap.Bitmap.UpdatePage | bitmap/bitmap.go:146-152 | one byte and the counter of one page change, as `Flip` says |
| Bitmap.Bitmap.Unlink | bitmap/bitmap.go:154-156 | the page at the position leaves the list, the rest in order |
| Bitmap.Bitmap.Test | bitmap/bitmap.go:162-175 | returns `TestOp` of the current state |
| Bitmap.Bitmap.Clear | bitmap/bitmap.go:178-184 | the new state is that of `ClearOp` |
| Bitmap.Bitmap.Set | bitmap/bitmap.go:187-193 | the new state is that of `SetOp` |
| Bitmap.Bitmap.ClearAll | bitmap/bitmap.go:196-216 | the loop leaves the state of `ClearAllOp` |
| Bitmap.Bitmap.Size | bitmap/bitmap.go:219-224 | returns the request counter |
| Bitmap.Bitmap.GcVisit | bitmap/bitmap.go:233-239 | one turn unlinks or steps past the current page, extending the kept prefix by that page's verdict |
| Bitmap.Bitmap.Gc | bitmap/bitmap.go:227-243 | the walk leaves the state of `GcOp` |
| Bitmap.Bitmap.Capacity | bitmap/bitmap.go:246-260 | returns `CapacityOp` of the current state |

## Left out

- The mutexes of all three components: each method is modelled as one atomic step, and concurrent callers are not modelled.
- Go's map iteration order: the LFU eviction picks any key of the head node, and every choice is an allowed outcome.
- `container/list`: it is modelled by a sequence of keys (LRU), a sequence of frequencies with one set of keys per frequency (LFU), and a sequence of page objects (bitmap). List elements as pointers are not modelled.
- `Size()` of stored data and `Weight()` of nodes are modelled as fixed numbers taken when the value is stored or the selector is built. Values that change their answer over time are not modelled.
- `os.Getpagesize()` is the constant 4096.
- Infinite loops and nil dereferences are not executed but reported as the `Diverges` and `Panics` statuses. `Next` on an empty node list divides by zero in Go; it is excluded by `requires |nodes| > 0`.
- The option files (bitmap/option.go, cache/lru/option.go) are folded into the `Option` and `Limits` datatypes. The getters and setters of cache/lru/option_test.go are not modelled as separate members.
- The loop of bitmap/bitmap_test.go:35-65 over 150000 bits is covered by the general lemmas `SetThenTest`, `ClearThenTest` and `GcSpec`, not spelled out step by step.
- Bitmap.Bitmap.Set, Bitmap.Bitmap.Clear, Bitmap.Bitmap.Test: these require n >= 1, and the source's behaviour for n <= 0 is not modelled. Go's `/` and `%` truncate toward zero, which gives these cases:
  - most n <= 0 give a negative byte index and a run-time panic;
  - n = 0 touches page -1 with an empty mask;
  - n in [-6, -1] touches page 0 at byte 0 with a shift of 8 or more, so the mask is empty; page 0 is still created and the counters move;
  - n = 1 - k·32768 addresses byte 0, bit 0 of page -(k-1); for k = 1, `Set(-32767)` sets bit 1 and `Test(-32767)` reads it.
- Scheduling.EveryNodeEventuallyPicked: it is proved only for two or more nodes, all of positive weight (the case of roundrobin_test.go:38-58). With a zero or negative weight, the source's gcd convention makes such nodes behave differently, and this is not stated.
- Lru.EvictN: its own contract states only that the limits are kept. What it removes is stated by `Lru.EvictSpec` and `Lru.EvictNBack`.
