/** cache/lru/lru.go: a least-recently-used cache. A doubly linked list keeps the keys most recent
    first, a map finds each key's element, and a byte counter is kept against two optional limits. */
module Lru {
  import opened Common
  import opened CacheContract

  /** The fields of the cache: the byte counter, the list of keys (front = most recently used), the
      map from key to data, and the limits it copied from its option. */
  datatype State<K, V> = State(size: u64, order: seq<K>, items: map<K, Data<V>>, limits: Limits)

  /** The list and the map hold the same keys, each once. */
  predicate Inv<K(==), V>(s: State<K, V>)
  {
    NoDup(s.order) && Elems(s.order) == s.items.Keys
  }

  /** The list with `k` moved (or put) to the front. */
  function MoveToFront<K(==)>(order: seq<K>, k: K): seq<K>
  {
    [k] + Without(order, k)
  }

  /** `ElementsCount` is the length of the list as well as the size of the map. */
  lemma InvCount<K, V>(s: State<K, V>)
    requires Inv(s)
    ensures |s.items| == |s.order|
  {
    NoDupCard(s.order);
    assert |s.items.Keys| == |s.items|;
  }

  /** One round of the loop of `evictElement` (cache/lru/lru.go:140-146): the back element leaves the
      list and the map, and its data's size is subtracted from the counter. */
  function EvictTail<K(==), V>(s: State<K, V>): State<K, V>
    requires |s.order| > 0 && s.order[|s.order| - 1] in s.items
  {
    var k := s.order[|s.order| - 1];
    s.(size := SubU64(s.size, s.items[k].size), order := s.order[..|s.order| - 1], items := s.items - {k})
  }

  /** Removing the back element of a non-empty cache keeps the list and the map in step. */
  lemma EvictTailInv<K, V>(s: State<K, V>)
    requires Inv(s) && (|s.items| > 0 || |s.order| > 0)
    ensures |s.order| > 0 && s.order[|s.order| - 1] in s.items
    ensures Inv(EvictTail(s))
  {
    InvCount(s);
    var n := |s.order|;
    var p := s.order[..n - 1];
    assert s.order == p + [s.order[n - 1]];
    assert NoDup(p) by {
      forall i, j | 0 <= i < j < |p| ensures p[i] != p[j] {
        assert p[i] == s.order[i] && p[j] == s.order[j];
      }
    }
    assert Elems(p) == Elems(s.order) - {s.order[n - 1]} by {
      forall y | y in Elems(s.order) && y != s.order[n - 1] ensures y in Elems(p) {
        var i :| 0 <= i < n && s.order[i] == y;
        assert i < n - 1 && p[i] == y;
      }
      forall y | y in Elems(p) ensures y != s.order[n - 1] {
        var i :| 0 <= i < |p| && p[i] == y;
        assert s.order[i] == y;
      }
    }
  }

  /** The loop of `checkCapacity` (cache/lru/lru.go:132-135): evict from the back while a limit is
      exceeded. With nothing left to evict and the byte counter still above the capacity, the loop
      never ends; the outcome is then `Diverges` in the state it spins in. */
  function Shrink<K(==), V>(s: State<K, V>): (r: Outcome<State<K, V>>)
    requires Inv(s)
    ensures Inv(r.state) && r.status != Panics
    ensures r.state.limits == s.limits
    ensures forall k :: k in r.state.items ==> k in s.items && r.state.items[k] == s.items[k]
    ensures r.status == Completed ==> WithinLimits(s.limits, r.state.size, |r.state.items|)
    ensures r.status == Diverges ==>
      r.state.items == map[] && s.limits.capacity != 0 && r.state.size > s.limits.capacity
    ensures !OverLimit(s.limits, s.size, |s.items|) ==> r == Outcome(Completed, s)
    decreases |s.order|
  {
    if !OverLimit(s.limits, s.size, |s.items|) then Outcome(Completed, s)
    else if |s.items| == 0 then Outcome(Diverges, s)
    else
      EvictTailInv(s);
      var r := Shrink(EvictTail(s));
      r
  }

  /** `checkCapacity` only takes keys off the back of the list: what is left is a prefix of it. */
  lemma {:induction false} ShrinkPrefix<K, V>(s: State<K, V>)
    requires Inv(s)
    ensures Shrink(s).state.order <= s.order
    decreases |s.order|
  {
    if OverLimit(s.limits, s.size, |s.items|) && |s.items| != 0 {
      EvictTailInv(s);
      ShrinkPrefix(EvictTail(s));
    }
  }

  /** `evictElement(n)` (cache/lru/lru.go:138-148): up to `n` evictions from the back, fewer when the
      cache runs empty; none for `n <= 0`. The source tests the map for emptiness; under `Inv` the list
      has the same length (`InvCount`), and the list is what is tested here. */
  function EvictN<K(==), V>(s: State<K, V>, n: int): (r: State<K, V>)
    requires Inv(s)
    ensures r.limits == s.limits
    decreases |s.order|
  {
    if n <= 0 || |s.order| == 0 then s
    else
      EvictTailInv(s);
      EvictN(EvictTail(s), n - 1)
  }

  /** One round of `evictElement` is the first of the `n` evictions. */
  lemma EvictNStep<K, V>(s: State<K, V>, n: int)
    requires Inv(s) && |s.order| > 0 && n > 0
    ensures |s.order| > 0 && s.order[|s.order| - 1] in s.items
    ensures Inv(EvictTail(s)) && EvictN(s, n) == EvictN(EvictTail(s), n - 1)
  {
    EvictTailInv(s);
  }

  /** With no evictions asked for, or none possible, `evictElement` changes nothing. */
  lemma EvictNDone<K, V>(s: State<K, V>, n: int)
    requires Inv(s) && (n <= 0 || |s.order| == 0)
    ensures EvictN(s, n) == s
  {
  }

  /** `Set` (cache/lru/lru.go:44-64). A present key moves to the front and gets the new data, with no
      change of the byte counter and no capacity check; a new key goes to the front, its size is added
      and the capacity is checked. */
  function SetOp<K(==), V>(s: State<K, V>, k: K, d: Data<V>): Outcome<State<K, V>>
    requires Inv(s)
  {
    if k in s.items then
      Outcome(Completed, s.(order := MoveToFront(s.order, k), items := s.items[k := d]))
    else
      InsertInv(s, k, d);
      Shrink(Inserted(s, k, d))
  }

  /** A new key at the front of the list, with its size added (cache/lru/lru.go:54-62). */
  function Inserted<K(==), V>(s: State<K, V>, k: K, d: Data<V>): State<K, V>
  {
    s.(size := AddU64(s.size, d.size), order := [k] + s.order, items := s.items[k := d])
  }

  lemma InsertInv<K, V>(s: State<K, V>, k: K, d: Data<V>)
    requires Inv(s) && k !in s.items
    ensures Inv(Inserted(s, k, d))
  {
    var o := [k] + s.order;
    assert Elems(o) == {k} + Elems(s.order);
    forall i, j | 0 <= i < j < |o| ensures o[i] != o[j] {
      if i == 0 {
        assert o[j] == s.order[j - 1] && o[j] in Elems(s.order);
      } else {
        assert o[i] == s.order[i - 1] && o[j] == s.order[j - 1];
      }
    }
  }

  /** Moving a present key to the front keeps the list and the map in step. */
  lemma MoveToFrontInv<K, V>(s: State<K, V>, k: K, items: map<K, Data<V>>)
    requires Inv(s) && k in s.items && items.Keys == s.items.Keys
    ensures Inv(s.(order := MoveToFront(s.order, k), items := items))
  {
    var w := Without(s.order, k);
    var o := [k] + w;
    assert Elems(o) == {k} + Elems(w);
    assert k !in w;
    ConsNoDup(k, w);
  }

  /** `Get` (cache/lru/lru.go:66-76): the data of a present key, which moves to the front. */
  function GetOp<K(==), V>(s: State<K, V>, k: K): (Option<Data<V>>, State<K, V>)
  {
    if k in s.items then (Some(s.items[k]), s.(order := MoveToFront(s.order, k))) else (None, s)
  }

  /** `Delete` (cache/lru/lru.go:78-87): a present key leaves the list and the map, and the size of its
      current data is subtracted. */
  function DeleteOp<K(==), V>(s: State<K, V>, k: K): State<K, V>
  {
    if k in s.items then
      s.(size := SubU64(s.size, s.items[k].size), order := Without(s.order, k), items := s.items - {k})
    else s
  }

  /** `SetCapacity` (cache/lru/lru.go:110-116): new byte capacity, then the capacity check. */
  function SetCapacityOp<K(==), V>(s: State<K, V>, capacity: u64): Outcome<State<K, V>>
    requires Inv(s)
  {
    Shrink(s.(limits := s.limits.(capacity := capacity)))
  }

  /** `Clear` (cache/lru/lru.go:118-125): empty list, empty map, counter 0; the limits stay. */
  function ClearOp<K(==), V>(s: State<K, V>): (r: State<K, V>)
    ensures Inv(r) && |r.items| == 0 && r.size == 0 && r.limits == s.limits
  {
    State(0, [], map[], s.limits)
  }

  // ---------------------------------------------------------------- what the operations promise

  /** cache/lru/lru.go:48-52: `Set` of a present key moves it to the front and replaces its data; the
      byte counter, the element count and the other keys' order stay, nothing is evicted. */
  lemma SetPresent<K, V>(s: State<K, V>, k: K, d: Data<V>)
    requires Inv(s) && k in s.items
    ensures var r := SetOp(s, k, d);
      && r.status == Completed && Inv(r.state)
      && r.state.order[0] == k && r.state.order[1..] == Without(s.order, k)
      && r.state.items == s.items[k := d] && r.state.size == s.size
      && |r.state.items| == |s.items| && r.state.limits == s.limits
  {
    MoveToFrontInv(s, k, s.items[k := d]);
    var r := SetOp(s, k, d);
    assert r.state.order == [k] + Without(s.order, k);
  }

  /** cache/lru/lru.go:54-63: `Set` of a new key puts it at the front with one more element and its
      size added, then the capacity check evicts from the back only; if the key survives it is at the
      front with its data. Without limits nothing is evicted. */
  lemma SetNew<K, V>(s: State<K, V>, k: K, d: Data<V>)
    requires Inv(s) && k !in s.items
    ensures |Inserted(s, k, d).items| == |s.items| + 1
    ensures Inserted(s, k, d).size == AddU64(s.size, d.size)
    ensures var r := SetOp(s, k, d);
      && r.state.order <= [k] + s.order
      && (forall j :: j in r.state.items ==> j in s.items[k := d] && r.state.items[j] == s.items[k := d][j])
      && (r.status == Completed ==> WithinLimits(s.limits, r.state.size, |r.state.items|))
      && (k in r.state.items ==> r.state.order[0] == k && r.state.items[k] == d)
      && (Unlimited(s.limits) ==> r == Outcome(Completed, Inserted(s, k, d)))
  {
    InsertInv(s, k, d);
    ShrinkPrefix(Inserted(s, k, d));
    var r := SetOp(s, k, d);
    if k in r.state.items {
      assert k in Elems(r.state.order);
      assert r.state.order[0] == k;
    }
    if Unlimited(s.limits) {
      LimitsDual(s.limits, Inserted(s, k, d).size, |Inserted(s, k, d).items|);
    }
  }

  /** cache/lru/lru.go:66-76: `Get` of a present key gives its data and moves it to the front, the
      others keeping their relative order; of an absent key gives nothing and changes nothing. */
  lemma GetSpec<K, V>(s: State<K, V>, k: K)
    requires Inv(s)
    ensures k !in s.items ==> GetOp(s, k) == (None, s)
    ensures k in s.items ==>
      var (d, t) := GetOp(s, k);
      && d == Some(s.items[k]) && Inv(t)
      && t.items == s.items && t.size == s.size && t.limits == s.limits
      && t.order[0] == k && t.order[1..] == Without(s.order, k)
      && forall i, j :: 1 <= i < j < |t.order| ==> IndexOf(s.order, t.order[i]) < IndexOf(s.order, t.order[j])
  {
    if k in s.items {
      MoveToFrontInv(s, k, s.items);
      MoveToFrontKeepsOrder(s.order, k);
    }
  }

  /** Behind the moved key, the others keep their relative order. */
  lemma MoveToFrontKeepsOrder<K>(order: seq<K>, k: K)
    requires NoDup(order)
    ensures var t := MoveToFront(order, k);
      t[0] == k && t[1..] == Without(order, k)
      && forall i, j :: 1 <= i < j < |t| ==> IndexOf(order, t[i]) < IndexOf(order, t[j])
  {
    WithoutKeepsOrder(order, k);
    var w := Without(order, k);
    var t := MoveToFront(order, k);
    assert t == [k] + w;
    forall i, j | 1 <= i < j < |t| ensures IndexOf(order, t[i]) < IndexOf(order, t[j]) {
      assert t[i] == w[i - 1] && t[j] == w[j - 1];
    }
  }

  /** cache/lru/lru.go:78-87: `Delete` of a present key removes exactly that key from list and map and
      subtracts its current data's size; of an absent key changes nothing. */
  lemma DeleteSpec<K, V>(s: State<K, V>, k: K)
    requires Inv(s)
    ensures k !in s.items ==> DeleteOp(s, k) == s
    ensures k in s.items ==>
      var t := DeleteOp(s, k);
      && Inv(t) && t.items == s.items - {k} && k !in t.order
      && t.size == SubU64(s.size, s.items[k].size) && |t.items| == |s.items| - 1
      && t.limits == s.limits
  {
    if k in s.items {
      var t := DeleteOp(s, k);
      assert k !in Elems(t.order);
    }
  }

  /** cache/lru/lru.go:138-159: `Evict(n)` does nothing for `n <= 0`; otherwise it removes
      min(n, count) keys from the back, least recently used first, and keeps the data of the rest. */
  lemma EvictSpec<K, V>(s: State<K, V>, n: int)
    requires Inv(s)
    ensures n <= 0 ==> EvictN(s, n) == s
    ensures Inv(EvictN(s, n))
    ensures var m := if n <= 0 then 0 else if n < |s.order| then n else |s.order|;
      EvictedBack(s, EvictN(s, n), m) && |EvictN(s, n).items| == |s.items| - m
  {
    EvictNBack(s, n);
    InvCount(s);
    InvCount(EvictN(s, n));
  }

  /** The recursion of `EvictN` takes the keys off the back one by one. */
  lemma {:induction false} EvictNBack<K, V>(s: State<K, V>, n: int)
    requires Inv(s)
    ensures Inv(EvictN(s, n))
    ensures EvictedBack(s, EvictN(s, n), if n <= 0 then 0 else if n < |s.order| then n else |s.order|)
    decreases |s.order|
  {
    if n > 0 && |s.order| > 0 {
      EvictNStep(s, n);
      var t := EvictTail(s);
      var m := if n < |s.order| then n else |s.order|;
      EvictNBack(t, n - 1);
      EvictedBackStep(s, EvictN(t, n - 1), m);
    }
  }

  /** `r` is `s` with its last `m` keys gone and the data of the others kept. */
  ghost predicate EvictedBack<K, V>(s: State<K, V>, r: State<K, V>, m: int)
  {
    && 0 <= m <= |s.order|
    && r.order == s.order[..|s.order| - m]
    && forall k :: k in r.items ==> k in s.items && r.items[k] == s.items[k]
  }

  lemma EvictedBackStep<K, V>(s: State<K, V>, r: State<K, V>, m: int)
    requires 0 < m && |s.order| > 0 && s.order[|s.order| - 1] in s.items
    requires EvictedBack(EvictTail(s), r, m - 1)
    ensures EvictedBack(s, r, m)
  {
    var t := EvictTail(s);
    assert t.order[..|t.order| - (m - 1)] == s.order[..|s.order| - m];
  }

  /** cache/lru/lru.go:127-136: when `checkCapacity` returns, every non-zero limit is respected; an
      empty cache within the element limit is left with no way to shed bytes, the only way it hangs. */
  lemma ShrinkSpec<K, V>(s: State<K, V>)
    requires Inv(s)
    ensures Unlimited(s.limits) ==> Shrink(s) == Outcome(Completed, s)
    ensures Shrink(s).status == Completed ==>
      WithinLimits(s.limits, Shrink(s).state.size, |Shrink(s).state.items|)
    ensures Shrink(s).status == Diverges ==> |Shrink(s).state.items| == 0
  {
    LimitsDual(s.limits, s.size, |s.items|);
  }

  /** cache/lru/lru.go:161-176: full when a non-zero limit is met or exceeded, never without limits. */
  lemma FullAfterSet<K, V>(s: State<K, V>, k: K, d: Data<V>)
    requires Inv(s) && k !in s.items && SetOp(s, k, d).status == Completed
    ensures var t := SetOp(s, k, d).state;
      IsFull(t.limits, t.size, |t.items|) ==>
        (t.limits.capacity != 0 && t.size == t.limits.capacity)
        || (t.limits.maxElements != 0 && |t.items| == t.limits.maxElements)
  {
    SetNew(s, k, d);
    var t := SetOp(s, k, d).state;
    FullSpec(t.limits, t.size, |t.items|);
  }

  // ---------------------------------------------------------------- byte accounting

  /** The sum of the sizes of the data of the keys in `order`. */
  function TotalSize<K(==), V>(order: seq<K>, items: map<K, Data<V>>): nat
  {
    if order == [] then 0
    else (if order[0] in items then items[order[0]].size else 0) + TotalSize(order[1..], items)
  }

  /** The byte counter equals the sum of the sizes of the stored data. */
  predicate Accounted<K(==), V>(s: State<K, V>)
  {
    s.size == TotalSize(s.order, s.items)
  }

  lemma {:induction false} TotalSizeConcat<K, V>(a: seq<K>, b: seq<K>, items: map<K, Data<V>>)
    ensures TotalSize(a + b, items) == TotalSize(a, items) + TotalSize(b, items)
  {
    if a == [] {
      assert a + b == b;
    } else {
      assert (a + b)[1..] == a[1..] + b;
      TotalSizeConcat(a[1..], b, items);
    }
  }

  lemma {:induction false} TotalSizeOther<K, V>(order: seq<K>, items: map<K, Data<V>>, k: K, d: Data<V>)
    requires k !in order
    ensures TotalSize(order, items[k := d]) == TotalSize(order, items)
    ensures TotalSize(order, items - {k}) == TotalSize(order, items)
  {
    if order != [] {
      TotalSizeOther(order[1..], items, k, d);
    }
  }

  lemma {:induction false} TotalSizeWithout<K, V>(order: seq<K>, items: map<K, Data<V>>, k: K)
    requires NoDup(order) && k in order && k in items
    ensures TotalSize(Without(order, k), items) + items[k].size == TotalSize(order, items)
  {
    if order[0] == k {
      assert k !in order[1..] by {
        forall j | 0 <= j < |order[1..]| ensures order[1..][j] != k {
          assert order[1..][j] == order[j + 1];
        }
      }
      assert Without(order[1..], k) == order[1..];
    } else {
      assert NoDup(order[1..]) by {
        forall i, j | 0 <= i < j < |order[1..]| ensures order[1..][i] != order[1..][j] {
          assert order[1..][i] == order[i + 1] && order[1..][j] == order[j + 1];
        }
      }
      TotalSizeWithout(order[1..], items, k);
      assert Without(order, k) == [order[0]] + Without(order[1..], k);
      assert ([order[0]] + Without(order[1..], k))[1..] == Without(order[1..], k);
    }
  }

  /** Evicting the back element keeps the counter exact. */
  lemma EvictTailAccounted<K, V>(s: State<K, V>)
    requires Inv(s) && Accounted(s) && |s.order| > 0
    ensures Accounted(EvictTail(s))
  {
    var n := |s.order|;
    var last := s.order[n - 1];
    var p := s.order[..n - 1];
    assert s.order == p + [last];
    TotalSizeConcat(p, [last], s.items);
    assert last !in p by {
      forall i | 0 <= i < |p| ensures p[i] != last {
        assert p[i] == s.order[i];
      }
    }
    TotalSizeOther(p, s.items, last, s.items[last]);
    assert TotalSize([last], s.items) == s.items[last].size;
  }

  /** The capacity check keeps the counter exact, and with an exact counter it always returns: an
      empty cache then counts 0 bytes. */
  lemma {:induction false} ShrinkAccounted<K, V>(s: State<K, V>)
    requires Inv(s) && Accounted(s)
    ensures Accounted(Shrink(s).state) && Shrink(s).status == Completed
    decreases |s.order|
  {
    InvCount(s);
    if OverLimit(s.limits, s.size, |s.items|) && |s.items| > 0 {
      EvictTailInv(s);
      EvictTailAccounted(s);
      ShrinkAccounted(EvictTail(s));
    }
  }

  /** `Get` and `Clear` keep the counter exact. */
  lemma AccountingKept<K, V>(s: State<K, V>, k: K)
    requires Inv(s) && Accounted(s)
    ensures Accounted(GetOp(s, k).1)
    ensures Accounted(ClearOp(s))
  {
    if k in s.items {
      MoveToFrontTotal(s, k, s.items[k]);
      assert s.items[k := s.items[k]] == s.items;
    }
  }

  /** `Delete` subtracts exactly the size of the data it drops, so it keeps the counter exact. */
  lemma DeleteAccounted<K, V>(s: State<K, V>, k: K)
    requires Inv(s) && Accounted(s)
    ensures Accounted(DeleteOp(s, k))
  {
    if k in s.items {
      TotalSizeWithout(s.order, s.items, k);
      assert k !in Without(s.order, k);
      TotalSizeOther(Without(s.order, k), s.items, k, s.items[k]);
    }
  }

  /** `Set` keeps the counter exact except when it replaces data by data of another size, or when a
      new key carries the counter past 2^64; the capacity check then always returns. */
  lemma SetAccounted<K, V>(s: State<K, V>, k: K, d: Data<V>)
    requires Inv(s) && Accounted(s)
    ensures k in s.items && s.items[k].size == d.size ==> Accounted(SetOp(s, k, d).state)
    ensures k !in s.items && s.size + d.size < U64 ==>
      Accounted(SetOp(s, k, d).state) && SetOp(s, k, d).status == Completed
  {
    if k in s.items {
      MoveToFrontTotal(s, k, d);
    } else {
      InsertAccounted(s, k, d);
    }
  }

  /** Moving a key to the front with new data changes the sum by the difference of the sizes. */
  lemma MoveToFrontTotal<K, V>(s: State<K, V>, k: K, d: Data<V>)
    requires Inv(s) && k in s.items
    ensures TotalSize(MoveToFront(s.order, k), s.items[k := d]) + s.items[k].size
      == TotalSize(s.order, s.items) + d.size
  {
    var w := Without(s.order, k);
    TotalSizeWithout(s.order, s.items, k);
    assert k !in w;
    TotalSizeOther(w, s.items, k, d);
    var t := MoveToFront(s.order, k);
    assert t == [k] + w && t[1..] == w;
    assert TotalSize(t, s.items[k := d]) == d.size + TotalSize(w, s.items[k := d]);
  }

  /** Inserting a new key without overflow, then the capacity check, keeps the counter exact. */
  lemma InsertAccounted<K, V>(s: State<K, V>, k: K, d: Data<V>)
    requires Inv(s) && Accounted(s) && k !in s.items
    ensures s.size + d.size < U64 ==>
      Accounted(SetOp(s, k, d).state) && SetOp(s, k, d).status == Completed
  {
    assert k !in s.order;
    if s.size + d.size < U64 {
      InsertInv(s, k, d);
      TotalSizeOther(s.order, s.items, k, d);
      var i := Inserted(s, k, d);
      assert i.order[1..] == s.order;
      assert Accounted(i);
      ShrinkAccounted(i);
    }
  }

  /** cache/lru/lru.go:48-52, :83: replacing a key's data by data of another size leaves the counter
      stale, `Delete` then wraps it around below zero, and the capacity check hangs on an empty cache. */
  lemma ReplacementDrift()
    ensures var s0: State<int, int> := State(0, [], map[], Limits(100, 0));
      var s1 := SetOp(s0, 1, Data(0, 10)).state;
      var s2 := SetOp(s1, 1, Data(0, 20)).state;
      var s3 := DeleteOp(s2, 1);
      && s1.size == 10 && s2.size == 10 && s3.size == U64 - 10 && s3.items == map[]
      && SetOp(s3, 2, Data(0, 1)).status == Diverges
  {
    var s0: State<int, int> := State(0, [], map[], Limits(100, 0));
    assert Inv(s0);
    var i1 := Inserted(s0, 1, Data(0, 10));
    assert i1.order == [1];
    assert Inv(i1) by { InsertInv(s0, 1, Data(0, 10)); }
    assert SetOp(s0, 1, Data(0, 10)) == Outcome(Completed, i1);
    var s2 := SetOp(i1, 1, Data(0, 20)).state;
    SetPresent(i1, 1, Data(0, 20));
    assert s2.order == [1];
    var s3 := DeleteOp(s2, 1);
    assert s3.order == [] && s3.items == map[];
    assert Inv(s3);
    var i4 := Inserted(s3, 2, Data(0, 1));
    InsertInv(s3, 2, Data(0, 1));
    assert i4.size == U64 - 9 && i4.order == [2];
    EvictTailInv(i4);
    var e := EvictTail(i4);
    assert e.size == U64 - 10 && e.items == map[];
  }

  /** cache/lru/lru_test.go:64-100: with at most two elements, setting k1, k2, k3 keeps two (k3 and k2),
      and each `Evict(1)` drops one more. */
  lemma EvictScenario()
    ensures var s0: State<int, int> := State(0, [], map[], Limits(0, 2));
      var s1 := SetOp(s0, 1, Data(0, 10)).state;
      var s2 := SetOp(s1, 2, Data(0, 10)).state;
      var r3 := SetOp(s2, 3, Data(0, 10));
      && |s1.items| == 1 && |s2.items| == 2
      && r3.status == Completed && r3.state.order == [3, 2] && |r3.state.items| == 2
      && |EvictN(r3.state, 1).items| == 1
      && Inv(EvictN(r3.state, 1)) && |EvictN(EvictN(r3.state, 1), 1).items| == 0
  {
    var i2 := TwoInserted();
    var e := ThirdEvictsFirst(i2);
    EvictSpec(e, 1);
    EvictSpec(EvictN(e, 1), 1);
  }

  /** One eviction that brings the cache within its limits ends the capacity check. */
  lemma ShrinkOnce<K, V>(s: State<K, V>)
    requires Inv(s) && |s.order| > 0 && OverLimit(s.limits, s.size, |s.items|)
    requires !OverLimit(s.limits, EvictTail(s).size, |EvictTail(s).items|)
    ensures Inv(EvictTail(s)) && Shrink(s) == Outcome(Completed, EvictTail(s))
  {
    EvictTailInv(s);
  }

  /** The third step of the scenario above: k3 goes in front, the element limit evicts k1. */
  lemma ThirdEvictsFirst(i2: State<int, int>) returns (e: State<int, int>)
    requires i2 == State(20, [2, 1], map[1 := Data(0, 10), 2 := Data(0, 10)], Limits(0, 2))
    ensures Inv(e) && SetOp(i2, 3, Data(0, 10)) == Outcome(Completed, e)
    ensures e.order == [3, 2] && |e.items| == 2
  {
    assert Inv(i2);
    var i3 := Inserted(i2, 3, Data(0, 10));
    InsertInv(i2, 3, Data(0, 10));
    assert i3.items == map[1 := Data(0, 10), 2 := Data(0, 10), 3 := Data(0, 10)];
    assert i3.order == [3, 2, 1] && |i3.items| == 3;
    e := EvictTail(i3);
    assert e.order == [3, 2] && |e.items| == 2;
    ShrinkOnce(i3);
  }

  /** The first two steps of the scenario above: both keys fit. */
  lemma TwoInserted() returns (i2: State<int, int>)
    ensures var s0: State<int, int> := State(0, [], map[], Limits(0, 2));
      var s1 := SetOp(s0, 1, Data(0, 10)).state;
      && |s1.items| == 1 && SetOp(s1, 2, Data(0, 10)) == Outcome(Completed, i2)
      && i2 == State(20, [2, 1], map[1 := Data(0, 10), 2 := Data(0, 10)], Limits(0, 2))
  {
    var s0: State<int, int> := State(0, [], map[], Limits(0, 2));
    var i1 := Inserted(s0, 1, Data(0, 10));
    InsertInv(s0, 1, Data(0, 10));
    assert |i1.items| == 1;
    assert SetOp(s0, 1, Data(0, 10)) == Outcome(Completed, i1);
    i2 := Inserted(i1, 2, Data(0, 10));
    InsertInv(i1, 2, Data(0, 10));
    assert i2.items.Keys == {1, 2};
    assert |i2.items| == 2;
    assert SetOp(i1, 2, Data(0, 10)) == Outcome(Completed, i2);
  }

  /** cache/lru/lru_test.go:16-62: a stored item is read back, counted in the size, and gone with its
      bytes after `Delete`. */
  lemma BasicScenario()
    ensures var s0: State<int, int> := State(0, [], map[], Limits(0x10_0000, 0));
      var s1 := SetOp(s0, 7, Data(0, 10)).state;
      var s2 := SetCapacityOp(s1, 0x4000_0000).state;
      var s3 := DeleteOp(s2, 7);
      && GetOp(s1, 7).0 == Some(Data(0, 10)) && s1.size == 10
      && s2.limits.capacity == 0x4000_0000
      && s3.size == 0 && GetOp(s3, 7).0 == None
  {
    var s0: State<int, int> := State(0, [], map[], Limits(0x10_0000, 0));
    var i1 := Inserted(s0, 7, Data(0, 10));
    InsertInv(s0, 7, Data(0, 10));
    assert i1.items.Keys == {7} && |i1.items| == 1;
    assert SetOp(s0, 7, Data(0, 10)) == Outcome(Completed, i1);
    var a := i1.(limits := i1.limits.(capacity := 0x4000_0000));
    assert Shrink(a) == Outcome(Completed, a);
  }

  /** A single entry larger than the capacity is evicted, not kept. */
  lemma OversizedEntryEvicted()
    ensures var r := SetOp(State(0, [], map[], Limits(5, 0)), 1, Data(0, 10));
      r.status == Completed && r.state.items == map[] && r.state.size == 0
  {
    var s0: State<int, int> := State(0, [], map[], Limits(5, 0));
    var i1 := Inserted(s0, 1, Data(0, 10));
    InsertInv(s0, 1, Data(0, 10));
    assert i1.order == [1];
    EvictTailInv(i1);
    assert EvictTail(i1).items == map[];
  }

  // ---------------------------------------------------------------- the cache object

  class Cache<K(==), V> {
    var size: u64
    var order: seq<K>
    var items: map<K, Data<V>>
    var limits: Limits

    function View(): State<K, V>
      reads this
    {
      State(size, order, items, limits)
    }

    /** cache/lru/lru.go:28-42: an empty cache with a copy of the option's limits, none for nil. */
    constructor (o: Option<Limits>)
      ensures Inv(View()) && Accounted(View())
      ensures size == 0 && order == [] && items == map[]
      ensures limits == (if o.None? then Limits(0, 0) else o.value)
    {
      size := 0;
      order := [];
      items := map[];
      limits := if o.None? then Limits(0, 0) else o.value;
    }

    /** cache/lru/lru.go:44-64. */
    method Set(key: K, data: Data<V>) returns (st: Status)
      requires Inv(View())
      modifies this
      ensures Inv(View())
      ensures Outcome(st, View()) == SetOp(old(View()), key, data)
    {
      if key in items {
        order := MoveToFront(order, key);
        items := items[key := data];
        MoveToFrontInv(old(View()), key, items);
        return Completed;
      }
      InsertInv(View(), key, data);
      order := [key] + order;
      items := items[key := data];
      size := AddU64(size, data.size);
      st := CheckCapacity();
    }

    /** cache/lru/lru.go:66-76. */
    method Get(key: K) returns (d: Option<Data<V>>)
      requires Inv(View())
      modifies this
      ensures Inv(View())
      ensures (d, View()) == GetOp(old(View()), key)
    {
      if key in items {
        MoveToFrontInv(View(), key, items);
        order := MoveToFront(order, key);
        return Some(items[key]);
      }
      return None;
    }

    /** cache/lru/lru.go:78-87. */
    method Delete(key: K)
      requires Inv(View())
      modifies this
      ensures Inv(View())
      ensures View() == DeleteOp(old(View()), key)
    {
      DeleteSpec(View(), key);
      if key in items {
        size := SubU64(size, items[key].size);
        order := Without(order, key);
        items := items - {key};
      }
    }

    /** cache/lru/lru.go:89-94. */
    method Size() returns (r: u64)
      ensures r == size
    {
      r := size;
    }

    /** cache/lru/lru.go:96-101: the number of keys, which is also the length of the list. */
    method ElementsCount() returns (r: nat)
      requires Inv(View())
      ensures r == |items| == |order|
    {
      InvCount(View());
      r := |items|;
    }

    /** cache/lru/lru.go:103-108. */
    method Capacity() returns (r: u64)
      ensures r == limits.capacity
    {
      r := limits.capacity;
    }

    /** cache/lru/lru.go:110-116. */
    method SetCapacity(capacity: u64) returns (st: Status)
      requires Inv(View())
      modifies this
      ensures Inv(View())
      ensures Outcome(st, View()) == SetCapacityOp(old(View()), capacity)
    {
      limits := limits.(capacity := capacity);
      st := CheckCapacity();
    }

    /** cache/lru/lru.go:118-125. */
    method Clear()
      modifies this
      ensures Inv(View())
      ensures View() == ClearOp(old(View()))
    {
      order := [];
      items := map[];
      size := 0;
    }

    /** cache/lru/lru.go:127-136. The source loops forever where this returns `Diverges`. */
    method CheckCapacity() returns (st: Status)
      requires Inv(View())
      modifies this
      ensures Inv(View())
      ensures Outcome(st, View()) == Shrink(old(View()))
    {
      if limits.capacity == 0 && limits.maxElements == 0 {
        LimitsDual(limits, size, |items|);
        return Completed;
      }
      while OverLimit(limits, size, |items|)
        invariant Inv(View())
        invariant Shrink(View()) == Shrink(old(View()))
        decreases |order|
      {
        if |items| == 0 {
          // evictElement removes nothing from here on
          return Diverges;
        }
        EvictTailInv(View());
        InvCount(View());
        EvictElement(1);
      }
      return Completed;
    }

    /** cache/lru/lru.go:138-148. */
    method EvictElement(n: int)
      requires Inv(View())
      modifies this
      ensures Inv(View())
      ensures View() == EvictN(old(View()), n)
    {
      var left := n;
      ghost var target := EvictN(View(), n);
      while left > 0 && |order| > 0
        invariant Inv(View())
        invariant EvictN(View(), left) == target
        decreases |order|
      {
        ghost var v := View();
        EvictNStep(v, left);
        RemoveBack();
        left := left - 1;
        assert EvictN(View(), left) == EvictN(EvictTail(v), left);
      }
      EvictNDone(View(), left);
    }

    /** One round of the loop of `evictElement` (cache/lru/lru.go:140-146). */
    method RemoveBack()
      requires Inv(View()) && |order| > 0
      modifies this
      ensures Inv(View())
      ensures View() == EvictTail(old(View()))
    {
      EvictTailInv(View());
      var k := order[|order| - 1];
      var v := items[k];
      order := order[..|order| - 1];
      items := items - {k};
      size := SubU64(size, v.size);
    }

    /** cache/lru/lru.go:150-159. */
    method Evict(n: int)
      requires Inv(View())
      modifies this
      ensures Inv(View())
      ensures View() == EvictN(old(View()), n)
    {
      if n <= 0 {
        return;
      }
      EvictElement(n);
    }

    /** cache/lru/lru.go:161-176. */
    method Full() returns (b: bool)
      ensures b == IsFull(limits, size, |items|)
    {
      if limits.capacity == 0 && limits.maxElements == 0 {
        return false;
      }
      if (limits.capacity != 0 && size >= limits.capacity)
        || (limits.maxElements != 0 && |items| >= limits.maxElements)
      {
        return true;
      }
      return false;
    }
  }
}
