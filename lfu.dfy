/** cache/lfu/lfu.go: a least-frequently-used cache built on a list of frequency nodes. Each node has an
    access count and a set of keys; each stored entry points back to its parent node. Frequencies
    strictly increase from the head of the list to its tail, so a node in the list is identified by
    its frequency: the list is the sequence of those frequencies, the nodes' key sets are a map keyed
    by frequency, and an entry's parent is the frequency of its node. */
module Lfu {
  import opened Common
  import opened CacheContract

  /** A stored entry, `entry` (cache/lfu/lfu.go:29-33): its data and (the frequency of) its parent. */
  datatype Entry<V> = Entry(data: Data<V>, parent: int)

  /** The fields of the cache (cache/lfu/lfu.go:15-27): the byte counter, the frequencies of the list's
      nodes from head to tail, each node's `items` by its frequency, the `caches` map and the limits. */
  datatype State<K, V> = State(size: u64, order: seq<int>, buckets: map<int, set<K>>,
                               entries: map<K, Entry<V>>, limits: Limits)

  /** What every operation preserves: the list and the nodes agree, and every live entry is filed in
      its parent. A node may be empty, and it may file keys whose entry lives in another node or
      nowhere. */
  predicate Inv<K, V>(s: State<K, V>)
  {
    ListInv(s.order, s.buckets) && Filed(s.entries, s.buckets)
  }

  /** Strictly increasing. */
  predicate Ascending(order: seq<int>)
  {
    forall i, j :: 0 <= i < j < |order| ==> order[i] < order[j]
  }

  /** The listed frequencies are exactly the nodes, each at least 1, strictly increasing. */
  predicate ListInv<K>(order: seq<int>, buckets: map<int, set<K>>)
  {
    && (forall i :: 0 <= i < |order| ==> order[i] in buckets)
    && (forall f :: f in buckets ==> f in order)
    && Ascending(order)
    && (|order| > 0 ==> order[0] >= 1)
  }

  /** Every live entry's parent is a node that files its key. */
  predicate Filed<K, V>(entries: map<K, Entry<V>>, buckets: map<int, set<K>>)
  {
    forall k :: k in entries ==> entries[k].parent in buckets && k in buckets[entries[k].parent]
  }

  /** The keys filed in the head node, over which `evictElement` ranges (cache/lfu/lfu.go:166-168). */
  function HeadItems<K, V>(s: State<K, V>): set<K>
  {
    if |s.order| > 0 && s.order[0] in s.buckets then s.buckets[s.order[0]] else {}
  }

  /** `increment(e)` (cache/lfu/lfu.go:188-223) for key `k` whose entry now holds `d` and has parent
      `cur` (none for a new entry). The entry moves to the node that follows `cur` (or to the head)
      when that node has the next frequency; the key then stays filed in `cur`. Otherwise a node with
      that frequency is spliced in after `cur` (or pushed at the head), and only on this path is the
      key taken out of `cur`. An emptied node stays in the list. */
  function Incremented<K(==), V>(s: State<K, V>, k: K, d: Data<V>, cur: Option<int>): State<K, V>
    requires Inv(s) && (cur.Some? ==> cur.value in s.buckets)
  {
    var freq := if cur.None? then 1 else cur.value + 1;
    var at := if cur.None? then 0 else IndexOf(s.order, cur.value) + 1;
    if at < |s.order| && s.order[at] == freq then
      s.(buckets := s.buckets[freq := s.buckets[freq] + {k}], entries := s.entries[k := Entry(d, freq)])
    else
      var order := if cur.None? then [freq] + s.order else s.order[..at] + [freq] + s.order[at..];
      var buckets := if cur.None? then s.buckets else s.buckets[cur.value := s.buckets[cur.value] - {k}];
      s.(order := order, buckets := buckets[freq := {k}], entries := s.entries[k := Entry(d, freq)])
  }

  /** `removeElement(e)` (cache/lfu/lfu.go:148-162): subtract the entry's size, take its key out of its
      parent node and out of the map, and drop the parent node from the list if that emptied it. (A
      parent outside the list cannot occur under `Inv`; it is then treated as an empty node.) */
  function Removed<K(==), V>(s: State<K, V>, k: K): State<K, V>
    requires k in s.entries
  {
    var p := s.entries[k].parent;
    var items := if p in s.buckets then s.buckets[p] - {k} else {};
    var t := s.(size := SubU64(s.size, s.entries[k].data.size), entries := s.entries - {k});
    if items == {} then t.(order := Without(s.order, p), buckets := s.buckets - {p})
    else t.(buckets := s.buckets[p := items])
  }

  /** The possible outcomes of `evictElement(n)` (cache/lfu/lfu.go:164-175). Go ranges over a map in an
      unspecified order, so each round may take any key of the head node: a key with no entry is a
      nil dereference (`Panics`), a key with an entry removes that entry from wherever it lives, and an
      empty head node makes the round remove nothing. */
  ghost predicate EvictsTo<K, V>(s: State<K, V>, n: int, r: Outcome<State<K, V>>)
    decreases n, 1
  {
    if n <= 0 || |s.entries| == 0 then r == Outcome(Completed, s)
    else if HeadItems(s) == {} then EvictsTo(s, n - 1, r)
    else exists k :: k in HeadItems(s) && EvictRoundTo(s, n, k, r)
  }

  /** A round of `evictElement` that picks key `k` of the head node, and the rounds after it. */
  ghost predicate EvictRoundTo<K, V>(s: State<K, V>, n: int, k: K, r: Outcome<State<K, V>>)
    requires n > 0
    decreases n, 0
  {
    k in HeadItems(s) && if k in s.entries then EvictsTo(Removed(s, k), n - 1, r) else r == Outcome(Panics, s)
  }

  /** The possible outcomes of `checkCapacity` (cache/lfu/lfu.go:177-186): evict one key at a time from
      the head node while a limit is exceeded. With no entry left, or an empty head node, a round
      removes nothing and the loop never ends (`Diverges`). */
  ghost predicate Shrinks<K, V>(s: State<K, V>, r: Outcome<State<K, V>>)
    decreases |s.entries|, 1
  {
    if !OverLimit(s.limits, s.size, |s.entries|) then r == Outcome(Completed, s)
    else if |s.entries| == 0 || HeadItems(s) == {} then r == Outcome(Diverges, s)
    else exists k :: k in HeadItems(s) && ShrinkRoundTo(s, k, r)
  }

  /** A round of `checkCapacity` that evicts key `k` of the head node, and the rounds after it. */
  ghost predicate ShrinkRoundTo<K, V>(s: State<K, V>, k: K, r: Outcome<State<K, V>>)
    decreases |s.entries|, 0
  {
    k in HeadItems(s) &&
    if k in s.entries then RemoveShrinks(s, k); Shrinks(Removed(s, k), r) else r == Outcome(Panics, s)
  }

  /** Removing a live key shortens the map by one. */
  lemma RemoveShrinks<K, V>(s: State<K, V>, k: K)
    requires k in s.entries
    ensures |Removed(s, k).entries| == |s.entries| - 1
  {
    assert Removed(s, k).entries.Keys == s.entries.Keys - {k};
  }

  /** The parent `Set` and `Get` hand to `increment`: the entry's node, none for a new key. */
  function Parent<K(==), V>(s: State<K, V>, k: K): Option<int>
  {
    if k in s.entries then Some(s.entries[k].parent) else None
  }

  /** `Set` up to its capacity check (cache/lfu/lfu.go:59-70): the entry gets the new data (a new
      entry is made for a new key) and is incremented. The byte counter is not touched. */
  function SetTouch<K(==), V>(s: State<K, V>, k: K, d: Data<V>): State<K, V>
    requires Inv(s)
  {
    Incremented(s, k, d, Parent(s, k))
  }

  /** `Get` (cache/lfu/lfu.go:75-85): a present key is incremented and its data returned. */
  function GetOp<K(==), V>(s: State<K, V>, k: K): (Option<Data<V>>, State<K, V>)
    requires Inv(s)
  {
    if k in s.entries then (Some(s.entries[k].data), Incremented(s, k, s.entries[k].data, Parent(s, k)))
    else (None, s)
  }

  /** `Delete` (cache/lfu/lfu.go:87-95). */
  function DeleteOp<K(==), V>(s: State<K, V>, k: K): State<K, V>
  {
    if k in s.entries then Removed(s, k) else s
  }

  /** `Clear` (cache/lfu/lfu.go:126-134): empty list, counter 0, empty map; the limits stay. */
  function ClearOp<K, V>(s: State<K, V>): (r: State<K, V>)
    ensures Inv(r) && |r.entries| == 0 && r.order == [] && r.size == 0 && r.limits == s.limits
  {
    State(0, [], map[], map[], s.limits)
  }

  // ---------------------------------------------------------------- the invariant

  /** A live entry means a non-empty list whose head node has the smallest frequency of all. */
  lemma HeadIsLeast<K, V>(s: State<K, V>)
    requires Inv(s) && |s.entries| > 0
    ensures |s.order| > 0 && s.order[0] in s.buckets
    ensures forall j :: j in s.entries ==> s.order[0] <= s.entries[j].parent
  {
    var k :| k in s.entries;
    assert s.entries[k].parent in s.order;
    forall j | j in s.entries ensures s.order[0] <= s.entries[j].parent {
      var p := s.entries[j].parent;
      assert p in s.order;
      var i := IndexOf(s.order, p);
      if i > 0 {
        assert s.order[0] < s.order[i];
      }
    }
  }

  /** What `increment` guarantees: the invariant, the entry holding `d` under a node whose frequency is
      one more than before (1 for a new key), every other entry as before, the counter and the limits
      as before. */
  ghost predicate IncrementPost<K, V>(s: State<K, V>, k: K, d: Data<V>, cur: Option<int>, r: State<K, V>)
    requires cur.Some? ==> k in s.entries
  {
    && Inv(r) && r.size == s.size && r.limits == s.limits
    && r.entries == s.entries[k := Entry(d, if cur.None? then 1 else s.entries[k].parent + 1)]
  }

  /** cache/lfu/lfu.go:188-223: `increment` keeps the invariant and counts one access of `k`. */
  lemma IncrementSpec<K, V>(s: State<K, V>, k: K, d: Data<V>, cur: Option<int>)
    requires Inv(s) && (cur.None? ==> k !in s.entries)
    requires cur.Some? ==> k in s.entries && s.entries[k].parent == cur.value
    ensures IncrementPost(s, k, d, cur, Incremented(s, k, d, cur))
  {
    var freq := if cur.None? then 1 else cur.value + 1;
    var at := if cur.None? then 0 else IndexOf(s.order, cur.value) + 1;
    if !(at < |s.order| && s.order[at] == freq) {
      IncrementFresh(s, k, d, cur, freq, at);
    } else {
      IncrementReuse(s, k, d, cur, freq, at);
    }
  }

  /** The path where the node after `cur` already has the next frequency. */
  lemma IncrementReuse<K, V>(s: State<K, V>, k: K, d: Data<V>, cur: Option<int>, freq: int, at: nat)
    requires Inv(s) && (cur.None? ==> k !in s.entries)
    requires cur.Some? ==> k in s.entries && s.entries[k].parent == cur.value
    requires freq == if cur.None? then 1 else cur.value + 1
    requires at == if cur.None? then 0 else IndexOf(s.order, cur.value) + 1
    requires at < |s.order| && s.order[at] == freq
    ensures IncrementPost(s, k, d, cur, Incremented(s, k, d, cur))
  {
    var b := s.buckets[freq := s.buckets[freq] + {k}];
    var e := s.entries[k := Entry(d, freq)];
    ReuseShape(s, k, d, cur, freq, at);
    ReuseList(s.order, s.buckets, freq, s.buckets[freq] + {k});
    ReuseFiled(s.entries, s.buckets, freq, k, d);
    FreshPost(s, k, d, cur, freq, s.(buckets := b, entries := e));
  }

  /** On that path, `increment` adds `k` to the node of frequency `freq`. */
  lemma ReuseShape<K, V>(s: State<K, V>, k: K, d: Data<V>, cur: Option<int>, freq: int, at: nat)
    requires Inv(s) && (cur.Some? ==> cur.value in s.buckets)
    requires freq == if cur.None? then 1 else cur.value + 1
    requires at == if cur.None? then 0 else IndexOf(s.order, cur.value) + 1
    requires at < |s.order| && s.order[at] == freq
    ensures freq in s.buckets
    ensures Incremented(s, k, d, cur) ==
      s.(buckets := s.buckets[freq := s.buckets[freq] + {k}], entries := s.entries[k := Entry(d, freq)])
  {
  }

  /** Replacing the keys of a listed node keeps the list and the nodes in agreement. */
  lemma ReuseList<K>(order: seq<int>, buckets: map<int, set<K>>, freq: int, items: set<K>)
    requires ListInv(order, buckets) && freq in buckets
    ensures ListInv(order, buckets[freq := items])
  {
  }

  /** The entries with `k` filed under the existing node of frequency `freq`. */
  lemma ReuseFiled<K, V>(entries: map<K, Entry<V>>, buckets: map<int, set<K>>, freq: int, k: K, d: Data<V>)
    requires Filed(entries, buckets) && freq in buckets
    ensures Filed(entries[k := Entry(d, freq)], buckets[freq := buckets[freq] + {k}])
  {
  }

  /** The path where a node with the next frequency is spliced in. */
  lemma IncrementFresh<K, V>(s: State<K, V>, k: K, d: Data<V>, cur: Option<int>, freq: int, at: nat)
    requires Inv(s) && (cur.None? ==> k !in s.entries)
    requires cur.Some? ==> k in s.entries && s.entries[k].parent == cur.value
    requires freq == if cur.None? then 1 else cur.value + 1
    requires at == if cur.None? then 0 else IndexOf(s.order, cur.value) + 1
    requires !(at < |s.order| && s.order[at] == freq)
    ensures IncrementPost(s, k, d, cur, Incremented(s, k, d, cur))
  {
    var b0 := if cur.None? then s.buckets else s.buckets[cur.value := s.buckets[cur.value] - {k}];
    FreshList(s.order, s.buckets, b0, cur, freq, at, {k});
    FreshFiled(s.entries, s.buckets, b0, cur, freq, k, d);
    FreshShape(s, k, d, cur, freq, at);
    var r := s.(order := s.order[..at] + [freq] + s.order[at..], buckets := b0[freq := {k}],
                entries := s.entries[k := Entry(d, freq)]);
    FreshPost(s, k, d, cur, freq, r);
  }

  /** The parts of `IncrementPost` put together. */
  lemma FreshPost<K, V>(s: State<K, V>, k: K, d: Data<V>, cur: Option<int>, freq: int, r: State<K, V>)
    requires cur.Some? ==> k in s.entries && s.entries[k].parent == cur.value
    requires freq == if cur.None? then 1 else cur.value + 1
    requires ListInv(r.order, r.buckets) && Filed(r.entries, r.buckets)
    requires r.size == s.size && r.limits == s.limits && r.entries == s.entries[k := Entry(d, freq)]
    ensures IncrementPost(s, k, d, cur, r)
  {
  }

  /** On that path, `increment` splices `freq` in at position `at`. */
  lemma FreshShape<K, V>(s: State<K, V>, k: K, d: Data<V>, cur: Option<int>, freq: int, at: nat)
    requires Inv(s) && (cur.Some? ==> cur.value in s.buckets)
    requires freq == if cur.None? then 1 else cur.value + 1
    requires at == if cur.None? then 0 else IndexOf(s.order, cur.value) + 1
    requires !(at < |s.order| && s.order[at] == freq)
    ensures at <= |s.order|
    ensures Incremented(s, k, d, cur) ==
      s.(order := s.order[..at] + [freq] + s.order[at..],
         buckets := (if cur.None? then s.buckets else s.buckets[cur.value := s.buckets[cur.value] - {k}])[freq := {k}],
         entries := s.entries[k := Entry(d, freq)])
  {
    if cur.None? {
      PushFront(s.order, freq);
    }
  }

  /** Splicing in at position 0 is pushing at the front. */
  lemma PushFront(order: seq<int>, x: int)
    ensures order[..0] + [x] + order[0..] == [x] + order
  {
    assert order[..0] == [] && order[0..] == order;
  }

  /** The list with the new node spliced in, over nodes with the same keys plus the new one. */
  lemma FreshList<K>(order: seq<int>, buckets: map<int, set<K>>, b0: map<int, set<K>>, cur: Option<int>,
                     freq: int, at: nat, items: set<K>)
    requires ListInv(order, buckets) && b0.Keys == buckets.Keys
    requires cur.Some? ==> cur.value in buckets
    requires freq == if cur.None? then 1 else cur.value + 1
    requires at == if cur.None? then 0 else IndexOf(order, cur.value) + 1
    requires !(at < |order| && order[at] == freq)
    ensures at <= |order| && freq !in buckets
    ensures ListInv(order[..at] + [freq] + order[at..], b0[freq := items])
  {
    FreshSlot(order, cur, freq, at);
    assert freq !in order;
    Spliced(order, freq, at);
    SplicedCover(order, b0, freq, at, items);
    var o := order[..at] + [freq] + order[at..];
    assert |o| > 0 ==> o[0] >= 1 by {
      SplicedIndex(order, freq, at);
      if at > 0 {
        assert o[0] == order[0];
      }
    }
  }

  /** Splicing a node into the list and adding it to the nodes keeps the two in agreement. */
  lemma SplicedCover<K>(order: seq<int>, b0: map<int, set<K>>, freq: int, at: nat, items: set<K>)
    requires at <= |order|
    requires forall i :: 0 <= i < |order| ==> order[i] in b0
    requires forall f :: f in b0 ==> f in order
    ensures var o := order[..at] + [freq] + order[at..];
      && (forall i :: 0 <= i < |o| ==> o[i] in b0[freq := items])
      && (forall f :: f in b0[freq := items] ==> f in o)
  {
    SplicedIndex(order, freq, at);
    var o := order[..at] + [freq] + order[at..];
    forall f | f in b0[freq := items] ensures f in o {
      if f != freq {
        var i := IndexOf(order, f);
        assert o[if i < at then i else i + 1] == f;
      } else {
        assert o[at] == freq;
      }
    }
  }

  /** Where each element of a spliced sequence comes from. */
  lemma SplicedIndex(order: seq<int>, x: int, at: nat)
    requires at <= |order|
    ensures var r := order[..at] + [x] + order[at..];
      && |r| == |order| + 1
      && forall i :: 0 <= i < |r| ==> r[i] == (if i < at then order[i] else if i == at then x else order[i - 1])
  {
  }

  /** The entries with `k` filed under the new node, the key taken out of `cur`. */
  lemma FreshFiled<K, V>(entries: map<K, Entry<V>>, buckets: map<int, set<K>>, b0: map<int, set<K>>,
                         cur: Option<int>, freq: int, k: K, d: Data<V>)
    requires Filed(entries, buckets) && freq !in buckets
    requires cur.Some? ==> cur.value in buckets
    requires b0 == if cur.None? then buckets else buckets[cur.value := buckets[cur.value] - {k}]
    ensures Filed(entries[k := Entry(d, freq)], b0[freq := {k}])
  {
    var e := entries[k := Entry(d, freq)];
    var b := b0[freq := {k}];
    forall j | j in e ensures e[j].parent in b && j in b[e[j].parent] {
      if j != k {
        assert entries[j].parent in buckets;
      }
    }
  }

  /** Where `increment` splices in a new node, every frequency before it is smaller and every one
      after it larger. */
  lemma FreshSlot(order: seq<int>, cur: Option<int>, freq: int, at: nat)
    requires Ascending(order)
    requires |order| > 0 ==> order[0] >= 1
    requires cur.Some? ==> cur.value in order
    requires freq == if cur.None? then 1 else cur.value + 1
    requires at == if cur.None? then 0 else IndexOf(order, cur.value) + 1
    requires !(at < |order| && order[at] == freq)
    ensures at <= |order|
    ensures forall i :: 0 <= i < at ==> order[i] < freq
    ensures forall i :: at <= i < |order| ==> freq < order[i]
  {
    forall i | 0 <= i < at ensures order[i] < freq {
      if i < at - 1 {
        assert order[i] < order[at - 1];
      }
    }
    forall i | at <= i < |order| ensures freq < order[i] {
      if cur.Some? {
        assert order[at - 1] < order[at];
      }
      if at < i {
        assert order[at] < order[i];
      }
    }
  }

  /** A frequency spliced in between smaller and larger ones keeps the list strictly increasing. */
  lemma Spliced(order: seq<int>, freq: int, at: nat)
    requires at <= |order| && Ascending(order)
    requires forall i :: 0 <= i < at ==> order[i] < freq
    requires forall i :: at <= i < |order| ==> freq < order[i]
    ensures Ascending(order[..at] + [freq] + order[at..])
  {
    SplicedIndex(order, freq, at);
  }

  /** What `removeElement` guarantees: the invariant, the key gone from the map with its size
      subtracted, the limits as before. */
  ghost predicate RemovePost<K, V>(s: State<K, V>, k: K, r: State<K, V>)
    requires k in s.entries
  {
    && Inv(r) && r.entries == s.entries - {k} && r.limits == s.limits
    && r.size == SubU64(s.size, s.entries[k].data.size)
  }

  /** cache/lfu/lfu.go:148-162: `removeElement` keeps the invariant; the parent node goes exactly when
      it files no other key. */
  lemma RemoveSpec<K, V>(s: State<K, V>, k: K)
    requires Inv(s) && k in s.entries
    ensures RemovePost(s, k, Removed(s, k))
    ensures var p := s.entries[k].parent;
      if s.buckets[p] == {k} then p !in Removed(s, k).buckets && p !in Removed(s, k).order
      else Removed(s, k).buckets[p] == s.buckets[p] - {k}
  {
    var p := s.entries[k].parent;
    if s.buckets[p] - {k} == {} {
      RemoveDrop(s, k, p);
    } else {
      RemoveStay(s, k, p);
    }
  }

  /** The path where the parent node files only `k` and leaves the list. */
  lemma RemoveDrop<K, V>(s: State<K, V>, k: K, p: int)
    requires Inv(s) && k in s.entries && p == s.entries[k].parent && s.buckets[p] - {k} == {}
    ensures RemovePost(s, k, Removed(s, k))
    ensures s.buckets[p] == {k} && p !in Removed(s, k).buckets && p !in Removed(s, k).order
  {
    var r := s.(size := SubU64(s.size, s.entries[k].data.size), entries := s.entries - {k},
                order := Without(s.order, p), buckets := s.buckets - {p});
    assert Removed(s, k) == r;
    DropList(s.order, s.buckets, p);
    DropFiled(s.entries, s.buckets, k, p);
    RemovePostParts(s, k, r);
  }

  /** Taking a node out of the list and out of the nodes keeps the two in agreement. */
  lemma DropList<K>(order: seq<int>, buckets: map<int, set<K>>, p: int)
    requires ListInv(order, buckets)
    ensures ListInv(Without(order, p), buckets - {p})
  {
    RemoveNode(order, p);
    forall f | f in buckets - {p} ensures f in Without(order, p) {
      assert f in Elems(order) - {p};
    }
  }

  /** With the node that filed only `k` gone, the other entries are still filed. */
  lemma DropFiled<K, V>(entries: map<K, Entry<V>>, buckets: map<int, set<K>>, k: K, p: int)
    requires Filed(entries, buckets) && p in buckets && buckets[p] - {k} == {}
    ensures Filed(entries - {k}, buckets - {p})
  {
    forall j | j in entries - {k} ensures entries[j].parent != p {
      assert j in buckets[entries[j].parent];
    }
  }

  /** The path where the parent node files other keys too and stays. */
  lemma RemoveStay<K, V>(s: State<K, V>, k: K, p: int)
    requires Inv(s) && k in s.entries && p == s.entries[k].parent && s.buckets[p] - {k} != {}
    ensures RemovePost(s, k, Removed(s, k))
    ensures s.buckets[p] != {k} && Removed(s, k).buckets[p] == s.buckets[p] - {k}
  {
    var r := s.(size := SubU64(s.size, s.entries[k].data.size), entries := s.entries - {k},
                buckets := s.buckets[p := s.buckets[p] - {k}]);
    assert Removed(s, k) == r;
    ReuseList(s.order, s.buckets, p, s.buckets[p] - {k});
    RemovePostParts(s, k, r);
  }

  /** The parts of `RemovePost` put together. */
  lemma RemovePostParts<K, V>(s: State<K, V>, k: K, r: State<K, V>)
    requires k in s.entries
    requires ListInv(r.order, r.buckets) && Filed(r.entries, r.buckets)
    requires r.entries == s.entries - {k} && r.limits == s.limits
    requires r.size == SubU64(s.size, s.entries[k].data.size)
    ensures RemovePost(s, k, r)
  {
  }

  /** Taking a frequency out of the list keeps it strictly increasing. */
  lemma RemoveNode(order: seq<int>, p: int)
    requires forall i, j :: 0 <= i < j < |order| ==> order[i] < order[j]
    ensures var w := Without(order, p);
      && (forall i, j :: 0 <= i < j < |w| ==> w[i] < w[j])
      && (|w| > 0 && |order| > 0 ==> order[0] <= w[0])
  {
    assert NoDup(order);
    WithoutKeepsOrder(order, p);
    var w := Without(order, p);
    forall i, j | 0 <= i < j < |w| ensures w[i] < w[j] {
      var a := IndexOf(order, w[i]);
      var b := IndexOf(order, w[j]);
      assert order[a] < order[b];
    }
    if |w| > 0 && |order| > 0 {
      var b := IndexOf(order, w[0]);
      if b > 0 {
        assert order[0] < order[b];
      }
    }
  }

  // ---------------------------------------------------------------- eviction and the capacity check

  /** What any run of `evictElement` or `checkCapacity` keeps: the invariant, the limits, and of the
      entries a subset with their data and counts. */
  ghost predicate Kept<K, V>(s: State<K, V>, t: State<K, V>)
  {
    && Inv(t) && t.limits == s.limits
    && forall j :: j in t.entries ==> j in s.entries && t.entries[j] == s.entries[j]
  }

  /** Removing a live key keeps the invariant. */
  lemma RemoveInv<K, V>(s: State<K, V>, k: K)
    requires Inv(s) && k in s.entries
    ensures Inv(Removed(s, k))
  {
    RemoveSpec(s, k);
  }

  /** A round that removes a live key keeps the rest. */
  lemma RemoveKept<K, V>(s: State<K, V>, k: K)
    requires Inv(s) && k in s.entries
    ensures Kept(s, Removed(s, k)) && |Removed(s, k).entries| == |s.entries| - 1
  {
    RemoveSpec(s, k);
    RemoveShrinks(s, k);
  }

  /** What a round of `evictElement` that picks `k` amounts to. */
  lemma EvictRoundFacts<K, V>(s: State<K, V>, n: int, k: K, r: Outcome<State<K, V>>)
    requires n > 0 && EvictRoundTo(s, n, k, r)
    ensures k in HeadItems(s)
    ensures k in s.entries ==> EvictsTo(Removed(s, k), n - 1, r)
    ensures k !in s.entries ==> r == Outcome(Panics, s)
  {
  }

  /** The key the first round of a run of `evictElement` picks. */
  lemma EvictPick<K, V>(s: State<K, V>, n: int, r: Outcome<State<K, V>>) returns (k: K)
    requires n > 0 && |s.entries| > 0 && HeadItems(s) != {} && EvictsTo(s, n, r)
    ensures k in HeadItems(s)
    ensures k in s.entries ==> EvictsTo(Removed(s, k), n - 1, r)
    ensures k !in s.entries ==> r == Outcome(Panics, s)
  {
    k :| k in HeadItems(s) && EvictRoundTo(s, n, k, r);
    EvictRoundFacts(s, n, k, r);
  }

  /** A round that picks `k` of the head node, then the remaining rounds, is a run of `evictElement`. */
  lemma EvictIntro<K, V>(s: State<K, V>, n: int, k: K, r: Outcome<State<K, V>>)
    requires n > 0 && |s.entries| > 0 && k in HeadItems(s)
    requires k in s.entries ==> EvictsTo(Removed(s, k), n - 1, r)
    requires k !in s.entries ==> r == Outcome(Panics, s)
    ensures EvictsTo(s, n, r)
  {
    assert EvictRoundTo(s, n, k, r);
  }

  /** A round that removes live key `k` from the head node, leaving `t`, is the first of the `n` rounds. */
  lemma EvictLive<K, V>(s: State<K, V>, n: int, m: int, k: K, t: State<K, V>, r: Outcome<State<K, V>>)
    requires n > 0 && m == n - 1 && |s.entries| > 0 && k in HeadItems(s) && k in s.entries
    requires t == Removed(s, k) && EvictsTo(t, m, r)
    ensures EvictsTo(s, n, r)
  {
    EvictIntro(s, n, k, r);
  }

  /** A round that removes live key `k` from the head node is the first of the `n` rounds. */
  lemma EvictLiveRound<K, V>(s: State<K, V>, n: int, m: int, k: K)
    requires n > 0 && m == n - 1 && |s.entries| > 0 && k in HeadItems(s) && k in s.entries
    ensures forall r :: EvictsTo(Removed(s, k), m, r) ==> EvictsTo(s, n, r)
  {
    forall r | EvictsTo(Removed(s, k), m, r) ensures EvictsTo(s, n, r) {
      EvictIntro(s, n, k, r);
    }
  }

  /** Runs that lead on to runs of `evictElement` from `start` compose. */
  lemma EvictChain<K, V>(start: State<K, V>, n: int, s: State<K, V>, left: int, t: State<K, V>, left': int)
    requires forall r :: EvictsTo(s, left, r) ==> EvictsTo(start, n, r)
    requires forall r :: EvictsTo(t, left', r) ==> EvictsTo(s, left, r)
    ensures forall r :: EvictsTo(t, left', r) ==> EvictsTo(start, n, r)
  {
  }

  /** Runs that lead on to runs of `checkCapacity` from `start` compose. */
  lemma ShrinkChain<K, V>(start: State<K, V>, s: State<K, V>, t: State<K, V>)
    requires forall r :: Shrinks(s, r) ==> Shrinks(start, r)
    requires forall r :: Shrinks(t, r) ==> Shrinks(s, r)
    ensures forall r :: Shrinks(t, r) ==> Shrinks(start, r)
  {
  }

  /** A round over an empty head node only uses up one of the `n` rounds. */
  lemma EvictSkip<K, V>(s: State<K, V>, n: int, m: int, r: Outcome<State<K, V>>)
    requires n > 0 && m == n - 1 && |s.entries| > 0 && HeadItems(s) == {} && EvictsTo(s, m, r)
    ensures EvictsTo(s, n, r)
  {
  }

  /** A round over an empty head node only uses up one of the `n` rounds. */
  lemma EvictEmptyRound<K, V>(s: State<K, V>, n: int, m: int)
    requires n > 0 && m == n - 1 && |s.entries| > 0 && HeadItems(s) == {}
    ensures forall r :: EvictsTo(s, m, r) ==> EvictsTo(s, n, r)
  {
  }

  /** cache/lfu/lfu.go:136-146, 164-175: `Evict(n)` changes nothing for `n <= 0`; otherwise each outcome
      keeps the invariant and a subset of the entries, with at most `n` fewer; it never hangs, and it
      crashes only on a head-node key that has no entry. */
  lemma {:induction false} EvictSpec<K, V>(s: State<K, V>, n: int, r: Outcome<State<K, V>>)
    requires Inv(s) && EvictsTo(s, n, r)
    ensures n <= 0 ==> r == Outcome(Completed, s)
    ensures Kept(s, r.state) && r.status != Diverges
    ensures |r.state.entries| >= |s.entries| - (if n <= 0 then 0 else n)
    ensures r.status == Panics ==> exists k :: k in HeadItems(r.state) && k !in r.state.entries
    decreases n
  {
    if n <= 0 || |s.entries| == 0 {
    } else if HeadItems(s) == {} {
      EvictSpec(s, n - 1, r);
    } else {
      var k := EvictPick(s, n, r);
      if k in s.entries {
        RemoveKept(s, k);
        EvictSpec(Removed(s, k), n - 1, r);
      }
    }
  }

  /** Every call of `evictElement` has an outcome. */
  lemma EvictTotal<K, V>(s: State<K, V>, n: int)
    requires Inv(s)
    ensures exists r :: EvictsTo(s, n, r)
  {
    var r := EvictOutcome(s, n);
  }

  /** An outcome of `evictElement`, built round by round. */
  lemma {:induction false} EvictOutcome<K, V>(s: State<K, V>, n: int) returns (r: Outcome<State<K, V>>)
    requires Inv(s)
    ensures EvictsTo(s, n, r)
    decreases n
  {
    var m := n - 1;
    if n <= 0 || |s.entries| == 0 {
      r := Outcome(Completed, s);
    } else if HeadItems(s) == {} {
      r := EvictOutcome(s, m);
      EvictSkip(s, n, m, r);
    } else {
      var k :| k in HeadItems(s);
      if k in s.entries {
        var t := Removed(s, k);
        RemoveInv(s, k);
        r := EvictOutcome(t, m);
        EvictLive(s, n, m, k, t, r);
      } else {
        r := Outcome(Panics, s);
        EvictIntro(s, n, k, r);
      }
    }
  }


  /** cache/lfu/lfu.go:168-171: a round takes its victim from the head node, whose frequency is the
      smallest; the victim is a least frequently used entry when it lives in that node. */
  lemma VictimFromHead<K, V>(s: State<K, V>, k: K)
    requires Inv(s) && k in HeadItems(s) && k in s.entries
    ensures |s.order| > 0 && s.order[0] in s.buckets
    ensures s.entries[k].parent == s.order[0] ==>
      forall j :: j in s.entries ==> s.entries[k].parent <= s.entries[j].parent
  {
    HeadIsLeast(s);
  }

  /** What a round of `checkCapacity` that evicts `k` amounts to. */
  lemma ShrinkRoundFacts<K, V>(s: State<K, V>, k: K, r: Outcome<State<K, V>>)
    requires ShrinkRoundTo(s, k, r)
    ensures k in HeadItems(s)
    ensures k in s.entries ==> Shrinks(Removed(s, k), r)
    ensures k !in s.entries ==> r == Outcome(Panics, s)
  {
  }

  /** The key the first round of a run of `checkCapacity` evicts. */
  lemma ShrinkPick<K, V>(s: State<K, V>, r: Outcome<State<K, V>>) returns (k: K)
    requires OverLimit(s.limits, s.size, |s.entries|) && |s.entries| > 0 && HeadItems(s) != {}
    requires Shrinks(s, r)
    ensures k in HeadItems(s)
    ensures k in s.entries ==> Shrinks(Removed(s, k), r)
    ensures k !in s.entries ==> r == Outcome(Panics, s)
  {
    k :| k in HeadItems(s) && ShrinkRoundTo(s, k, r);
    ShrinkRoundFacts(s, k, r);
  }

  /** Over a limit, a round that evicts `k` of the head node, then the remaining rounds, is a run of
      `checkCapacity`. */
  lemma ShrinkIntro<K, V>(s: State<K, V>, k: K, r: Outcome<State<K, V>>)
    requires OverLimit(s.limits, s.size, |s.entries|) && |s.entries| > 0 && k in HeadItems(s)
    requires k in s.entries ==> Shrinks(Removed(s, k), r)
    requires k !in s.entries ==> r == Outcome(Panics, s)
    ensures Shrinks(s, r)
  {
    assert ShrinkRoundTo(s, k, r);
  }

  /** One `evictElement(1)` inside the capacity check: its outcome leads on to the outcomes of the capacity check. */
  lemma ShrinkRound<K, V>(s: State<K, V>, x: Outcome<State<K, V>>)
    requires Inv(s) && OverLimit(s.limits, s.size, |s.entries|)
    requires |s.entries| > 0 && HeadItems(s) != {} && EvictsTo(s, 1, x)
    ensures x.status != Diverges
    ensures x.status == Panics ==> Shrinks(s, x)
    ensures x.status == Completed ==>
      |x.state.entries| < |s.entries| && forall r :: Shrinks(x.state, r) ==> Shrinks(s, r)
  {
    var k := EvictPick(s, 1, x);
    if k in s.entries {
      RemoveShrinks(s, k);
      assert x == Outcome(Completed, Removed(s, k));
      forall r | Shrinks(x.state, r) ensures Shrinks(s, r) {
        ShrinkIntro(s, k, r);
      }
    } else {
      ShrinkIntro(s, k, x);
    }
  }

  /** cache/lfu/lfu.go:177-186: every outcome of the capacity check keeps the invariant and a subset of
      the entries; on return both limits hold; it hangs only over a limit with no entry left or an
      empty head node, and crashes only on a head-node key that has no entry. */
  lemma {:induction false} ShrinkSpec<K, V>(s: State<K, V>, r: Outcome<State<K, V>>)
    requires Inv(s) && Shrinks(s, r)
    ensures Unlimited(s.limits) ==> r == Outcome(Completed, s)
    ensures Kept(s, r.state)
    ensures r.status == Completed ==> WithinLimits(s.limits, r.state.size, |r.state.entries|)
    ensures r.status == Diverges ==>
      OverLimit(s.limits, r.state.size, |r.state.entries|) && (|r.state.entries| == 0 || HeadItems(r.state) == {})
    ensures r.status == Panics ==> exists k :: k in HeadItems(r.state) && k !in r.state.entries
    decreases |s.entries|
  {
    LimitsDual(s.limits, s.size, |s.entries|);
    if OverLimit(s.limits, s.size, |s.entries|) && |s.entries| > 0 && HeadItems(s) != {} {
      var k := ShrinkPick(s, r);
      if k in s.entries {
        RemoveKept(s, k);
        ShrinkSpec(Removed(s, k), r);
      }
    }
  }

  /** Every capacity check has an outcome. */
  lemma ShrinkTotal<K, V>(s: State<K, V>)
    requires Inv(s)
    ensures exists r :: Shrinks(s, r)
  {
    var r := ShrinkOutcome(s);
  }

  /** An outcome of `checkCapacity`, built round by round. */
  lemma {:induction false} ShrinkOutcome<K, V>(s: State<K, V>) returns (r: Outcome<State<K, V>>)
    requires Inv(s)
    ensures Shrinks(s, r)
    decreases |s.entries|
  {
    if !OverLimit(s.limits, s.size, |s.entries|) {
      r := Outcome(Completed, s);
    } else if |s.entries| == 0 || HeadItems(s) == {} {
      r := Outcome(Diverges, s);
    } else {
      var k :| k in HeadItems(s);
      if k in s.entries {
        RemoveKept(s, k);
        r := ShrinkOutcome(Removed(s, k));
      } else {
        r := Outcome(Panics, s);
      }
      ShrinkIntro(s, k, r);
    }
  }

  // ---------------------------------------------------------------- what the operations promise

  /** cache/lfu/lfu.go:59-72: `Set` files the data under `k` with one more access (1 for a new key,
      which adds one element), keeps every other entry and leaves the byte counter alone; the capacity
      check then runs on that state. */
  lemma SetSpec<K, V>(s: State<K, V>, k: K, d: Data<V>)
    requires Inv(s)
    ensures var t := SetTouch(s, k, d);
      && Inv(t) && t.size == s.size && t.limits == s.limits
      && t.entries == s.entries[k := Entry(d, if k in s.entries then s.entries[k].parent + 1 else 1)]
      && |t.entries| == |s.entries| + (if k in s.entries then 0 else 1)
  {
    IncrementSpec(s, k, d, Parent(s, k));
  }

  /** cache/lfu/lfu.go:75-85: `Get` of a present key returns its data and counts one access, changing
      no other entry; of an absent key returns nothing and changes nothing. */
  lemma GetSpec<K, V>(s: State<K, V>, k: K)
    requires Inv(s)
    ensures k !in s.entries ==> GetOp(s, k) == (None, s)
    ensures k in s.entries ==>
      && GetOp(s, k).0 == Some(s.entries[k].data)
      && Inv(GetOp(s, k).1) && GetOp(s, k).1.size == s.size
      && GetOp(s, k).1.entries == s.entries[k := s.entries[k].(parent := s.entries[k].parent + 1)]
  {
    if k in s.entries {
      IncrementSpec(s, k, s.entries[k].data, Parent(s, k));
    }
  }

  /** cache/lfu/lfu.go:87-95: `Delete` of a present key removes it and subtracts its size, dropping its
      parent node when that files nothing else; of an absent key changes nothing. */
  lemma DeleteSpec<K, V>(s: State<K, V>, k: K)
    requires Inv(s)
    ensures k !in s.entries ==> DeleteOp(s, k) == s
    ensures k in s.entries ==>
      var t := DeleteOp(s, k);
      var p := s.entries[k].parent;
      && Inv(t) && t.entries == s.entries - {k}
      && t.size == SubU64(s.size, s.entries[k].data.size)
      && (s.buckets[p] == {k} ==> p !in t.buckets && p !in t.order)
      && (s.buckets[p] != {k} ==> t.buckets[p] == s.buckets[p] - {k})
  {
    if k in s.entries {
      RemoveSpec(s, k);
    }
  }

  // ---------------------------------------------------------------- scenarios

  /** The states of cache/lfu/lfu_test.go:31-35 (integer keys 1, 2, 3 and values of six bytes): new, after
      `Set(key1)`, after `Set(key2)`, after `Get(key1)` and after `Get(key2)`. */
  function EmptyState(l: Limits): State<int, int>
  {
    State(0, [], map[], map[], l)
  }

  function Set1State(l: Limits): State<int, int>
  {
    State(0, [1], map[1 := {1}], map[1 := Entry(Data(1, 6), 1)], l)
  }

  function Set2State(l: Limits): State<int, int>
  {
    State(0, [1], map[1 := {1, 2}], map[1 := Entry(Data(1, 6), 1), 2 := Entry(Data(2, 6), 1)], l)
  }

  function Get1State(l: Limits): State<int, int>
  {
    State(0, [1, 2], map[1 := {2}, 2 := {1}], map[1 := Entry(Data(1, 6), 2), 2 := Entry(Data(2, 6), 1)], l)
  }

  function Get2State(l: Limits): State<int, int>
  {
    State(0, [1, 2], map[1 := {2}, 2 := {1, 2}], map[1 := Entry(Data(1, 6), 2), 2 := Entry(Data(2, 6), 2)], l)
  }

  /** The state after the third `Set` (cache/lfu/lfu_test.go:37), before its capacity check. */
  function Set3State(): State<int, int>
  {
    State(0, [1, 2], map[1 := {2, 3}, 2 := {1, 2}],
          map[1 := Entry(Data(1, 6), 2), 2 := Entry(Data(2, 6), 2), 3 := Entry(Data(3, 6), 1)], Limits(0, 2))
  }

  /** cache/lfu/lfu_test.go:31-35: two `Set`s and a `Get` of each key. Each `Set` stays within the
      limits, so its capacity check returns at once, and both `Get`s hit; the second `Get` moves key 2
      into the node of key 1 and leaves it filed in the head node as well. */
  lemma TwoSetsTwoGets(l: Limits)
    requires l.maxElements == 0 || l.maxElements >= 2
    ensures Inv(EmptyState(l))
    ensures SetTouch(EmptyState(l), 1, Data(1, 6)) == Set1State(l)
    ensures Inv(Set1State(l)) && !OverLimit(l, Set1State(l).size, |Set1State(l).entries|)
    ensures SetTouch(Set1State(l), 2, Data(2, 6)) == Set2State(l)
    ensures Inv(Set2State(l)) && !OverLimit(l, Set2State(l).size, |Set2State(l).entries|)
    ensures GetOp(Set2State(l), 1) == (Some(Data(1, 6)), Get1State(l))
    ensures Inv(Get1State(l)) && GetOp(Get1State(l), 2) == (Some(Data(2, 6)), Get2State(l))
    ensures Inv(Get2State(l))
  {
    FirstSet(l);
    SecondSet(l);
    FirstGet(l);
    SecondGet(l);
    Get2Inv(l);
  }

  lemma FirstSet(l: Limits)
    ensures Inv(EmptyState(l))
    ensures SetTouch(EmptyState(l), 1, Data(1, 6)) == Set1State(l)
    ensures |Set1State(l).entries| == 1
  {
    assert Set1State(l).entries.Keys == {1};
  }

  lemma SecondSet(l: Limits)
    ensures Inv(Set1State(l)) && SetTouch(Set1State(l), 2, Data(2, 6)) == Set2State(l)
    ensures |Set2State(l).entries| == 2
  {
    var s1 := Set1State(l);
    assert Parent(s1, 2) == None && s1.order[0] == 1;
    assert s1.buckets[1] + {2} == {1, 2};
    assert Set2State(l).entries.Keys == {1, 2};
  }

  lemma FirstGet(l: Limits)
    ensures Inv(Set2State(l)) && GetOp(Set2State(l), 1) == (Some(Data(1, 6)), Get1State(l))
  {
    var s2 := Set2State(l);
    assert IndexOf(s2.order, 1) == 0;
    FreshShape(s2, 1, Data(1, 6), Some(1), 2, 1);
    FirstGetParts();
  }

  lemma FirstGetParts()
    ensures [1][..1] + [2] + [1][1..] == [1, 2]
    ensures var b: map<int, set<int>> := map[1 := {1, 2}];
      b[1 := b[1] - {1}][2 := {1}] == map[1 := {2}, 2 := {1}]
    ensures var e := map[1 := Entry(Data(1, 6), 1), 2 := Entry(Data(2, 6), 1)];
      e[1 := Entry(Data(1, 6), 2)] == map[1 := Entry(Data(1, 6), 2), 2 := Entry(Data(2, 6), 1)]
  {
    var b: map<int, set<int>> := map[1 := {1, 2}];
    assert b[1] - {1} == {2};
  }

  lemma SecondGet(l: Limits)
    ensures Inv(Get1State(l)) && GetOp(Get1State(l), 2) == (Some(Data(2, 6)), Get2State(l))
  {
    var s3 := Get1State(l);
    assert IndexOf(s3.order, 1) == 0;
    ReuseShape(s3, 2, Data(2, 6), Some(1), 2, 1);
    SecondGetParts();
  }

  lemma SecondGetParts()
    ensures var b: map<int, set<int>> := map[1 := {2}, 2 := {1}];
      b[2 := b[2] + {2}] == map[1 := {2}, 2 := {1, 2}]
    ensures var e := map[1 := Entry(Data(1, 6), 2), 2 := Entry(Data(2, 6), 1)];
      e[2 := Entry(Data(2, 6), 2)] == map[1 := Entry(Data(1, 6), 2), 2 := Entry(Data(2, 6), 2)]
  {
    var b: map<int, set<int>> := map[1 := {2}, 2 := {1}];
    assert b[2] + {2} == {1, 2};
  }

  lemma Get2Inv(l: Limits)
    ensures Inv(Get2State(l))
  {
  }

  /** The third `Set` files key 3 in the head node, next to the stale copy of key 2. */
  lemma ThirdSet()
    ensures Inv(Get2State(Limits(0, 2))) && SetTouch(Get2State(Limits(0, 2)), 3, Data(3, 6)) == Set3State()
  {
    var s4 := Get2State(Limits(0, 2));
    Get2Inv(Limits(0, 2));
    assert Parent(s4, 3) == None && s4.order[0] == 1;
    assert s4.buckets[1] + {3} == {2, 3};
    assert s4.buckets[1 := {2, 3}] == Set3State().buckets;
    assert s4.entries[3 := Entry(Data(3, 6), 1)] == Set3State().entries;
  }

  lemma Set3Inv()
    ensures Inv(Set3State()) && Set3State().entries.Keys == {1, 2, 3} && HeadItems(Set3State()) == {2, 3}
    ensures |Set3State().entries| == 3
  {
    assert Set3State().entries.Keys == {1, 2, 3};
  }

  /** The two states the third `Set` can end in: key 2 or key 3 evicted (each subtracting six bytes from a
      counter that never grew). */
  function Evicted2State(): State<int, int>
  {
    State(U64 - 6, [1, 2], map[1 := {2, 3}, 2 := {1}],
          map[1 := Entry(Data(1, 6), 2), 3 := Entry(Data(3, 6), 1)], Limits(0, 2))
  }

  function Evicted3State(): State<int, int>
  {
    State(U64 - 6, [1, 2], map[1 := {2}, 2 := {1, 2}],
          map[1 := Entry(Data(1, 6), 2), 2 := Entry(Data(2, 6), 2)], Limits(0, 2))
  }

  /** cache/lfu/lfu_test.go:37-59: the third `Set` exceeds the element limit and the capacity check evicts one key
      of the head node. It completes in exactly one of two states. In one, key 3 (accessed once) is gone.
      In the other, key 2 (accessed twice) is gone while key 3 stays: the stale copy of key 2 in the head
      node lets a more frequently used entry go first, and `Get(key2)` then misses. */
  lemma StaleKeyEvicted()
    ensures Inv(Get2State(Limits(0, 2))) && SetTouch(Get2State(Limits(0, 2)), 3, Data(3, 6)) == Set3State()
    ensures Set3State().entries[2].parent == 2 && Set3State().entries[3].parent == 1
    ensures Shrinks(Set3State(), Outcome(Completed, Evicted2State()))
    ensures Shrinks(Set3State(), Outcome(Completed, Evicted3State()))
    ensures forall r :: Shrinks(Set3State(), r) ==>
      r == Outcome(Completed, Evicted2State()) || r == Outcome(Completed, Evicted3State())
    ensures Inv(Evicted2State()) && GetOp(Evicted2State(), 2).0 == None
    ensures Inv(Evicted3State()) && GetOp(Evicted3State(), 2).0 == Some(Data(2, 6))
  {
    ThirdSet();
    ThirdSetOutcomes();
    EvictedInv();
  }

  /** The outcomes of the third `Set`'s capacity check. */
  lemma ThirdSetOutcomes()
    ensures Shrinks(Set3State(), Outcome(Completed, Evicted2State()))
    ensures Shrinks(Set3State(), Outcome(Completed, Evicted3State()))
    ensures forall r :: Shrinks(Set3State(), r) ==>
      r == Outcome(Completed, Evicted2State()) || r == Outcome(Completed, Evicted3State())
  {
    var t := Set3State();
    Set3Inv();
    Victim2();
    Victim3();
    ShrinkIntro(t, 2, Outcome(Completed, Evicted2State()));
    ShrinkIntro(t, 3, Outcome(Completed, Evicted3State()));
    forall r | Shrinks(t, r) ensures r == Outcome(Completed, Evicted2State()) || r == Outcome(Completed, Evicted3State()) {
      var k := ShrinkPick(t, r);
    }
  }

  /** Evicting key 2 leaves keys 1 and 3, within the limits. */
  lemma Victim2()
    ensures Inv(Set3State()) && Removed(Set3State(), 2) == Evicted2State()
    ensures !OverLimit(Limits(0, 2), U64 - 6, |Evicted2State().entries|)
  {
    Set3Inv();
    var t := Set3State();
    assert t.buckets[2] - {2} == {1};
    assert t.entries - {2} == Evicted2State().entries;
    assert t.buckets[2 := {1}] == Evicted2State().buckets;
    assert Evicted2State().entries.Keys == {1, 3};
  }

  /** Evicting key 3 leaves keys 1 and 2, within the limits. */
  lemma Victim3()
    ensures Inv(Set3State()) && Removed(Set3State(), 3) == Evicted3State()
    ensures !OverLimit(Limits(0, 2), U64 - 6, |Evicted3State().entries|)
  {
    Set3Inv();
    var t := Set3State();
    assert t.buckets[1] - {3} == {2};
    assert t.entries - {3} == Evicted3State().entries;
    assert t.buckets[1 := {2}] == Evicted3State().buckets;
    assert Evicted3State().entries.Keys == {1, 2};
  }

  lemma EvictedInv()
    ensures Inv(Evicted2State()) && Inv(Evicted3State())
  {
  }

  /** cache/lfu/lfu.go:87-95, 148-175: after the same two `Set`s and two `Get`s (no limits), deleting key 2
      leaves its stale copy in the head node, and `Evict(1)` then dereferences the missing entry: every
      outcome is a crash. */
  lemma StaleKeyPanics()
    ensures var s5 := DeleteOp(Get2State(Limits(0, 0)), 2);
      && Inv(s5) && |s5.entries| == 1 && 2 in HeadItems(s5)
      && (exists r :: EvictsTo(s5, 1, r))
      && forall r :: EvictsTo(s5, 1, r) ==> r.status == Panics
  {
    Get2Inv(Limits(0, 0));
    var s5 := DeleteStale();
    EvictTotal(s5, 1);
    forall r | EvictsTo(s5, 1, r) ensures r.status == Panics {
      var k := EvictPick(s5, 1, r);
    }
  }

  /** Deleting key 2 takes it out of its node of frequency 2 only. */
  lemma DeleteStale() returns (s5: State<int, int>)
    requires Inv(Get2State(Limits(0, 0)))
    ensures s5 == DeleteOp(Get2State(Limits(0, 0)), 2) && Inv(s5)
    ensures s5.entries.Keys == {1} && |s5.entries| == 1 && HeadItems(s5) == {2}
  {
    var s4 := Get2State(Limits(0, 0));
    s5 := DeleteOp(s4, 2);
    DeleteSpec(s4, 2);
    assert s4.buckets[2] - {2} == {1};
    assert s5.order == [1, 2] && s5.buckets[1] == {2};
  }

  /** The states of a run with a capacity of 100 bytes: one entry of 10 bytes set and deleted, then
      one entry of 1 byte set, before and after its eviction. */
  function WrapSet1State(): State<int, int>
  {
    State(0, [1], map[1 := {1}], map[1 := Entry(Data(1, 10), 1)], Limits(100, 0))
  }

  function WrapDeleteState(): State<int, int>
  {
    State(U64 - 10, [], map[], map[], Limits(100, 0))
  }

  function WrapSet2State(): State<int, int>
  {
    State(U64 - 10, [1], map[1 := {2}], map[2 := Entry(Data(2, 1), 1)], Limits(100, 0))
  }

  function WrapEvictState(): State<int, int>
  {
    State(U64 - 11, [], map[], map[], Limits(100, 0))
  }

  /** cache/lfu/lfu.go:59-72, 87-95, 177-186: `Set` never adds to the byte counter but removal subtracts,
      so deleting the only entry wraps the counter past a capacity of 100; the next `Set` evicts the new
      entry and then spins forever with nothing left to evict. */
  lemma SizeWrapDiverges()
    ensures Inv(EmptyState(Limits(100, 0)))
    ensures SetTouch(EmptyState(Limits(100, 0)), 1, Data(1, 10)) == WrapSet1State()
    ensures !OverLimit(Limits(100, 0), WrapSet1State().size, |WrapSet1State().entries|)
    ensures DeleteOp(WrapSet1State(), 1) == WrapDeleteState() && Inv(WrapDeleteState())
    ensures SetTouch(WrapDeleteState(), 2, Data(2, 1)) == WrapSet2State()
    ensures Shrinks(WrapSet2State(), Outcome(Diverges, WrapEvictState()))
    ensures forall r :: Shrinks(WrapSet2State(), r) ==> r == Outcome(Diverges, WrapEvictState())
  {
    WrapFirst();
    WrapSecond();
    WrapSpin();
  }

  lemma WrapFirst()
    ensures Inv(EmptyState(Limits(100, 0)))
    ensures SetTouch(EmptyState(Limits(100, 0)), 1, Data(1, 10)) == WrapSet1State()
    ensures |WrapSet1State().entries| == 1
    ensures DeleteOp(WrapSet1State(), 1) == WrapDeleteState()
  {
    assert WrapSet1State().entries.Keys == {1};
    assert Without([1], 1) == [];
    assert WrapSet1State().buckets - {1} == map[];
  }

  lemma WrapSecond()
    ensures Inv(WrapDeleteState()) && SetTouch(WrapDeleteState(), 2, Data(2, 1)) == WrapSet2State()
  {
  }

  lemma WrapSpin()
    ensures Inv(WrapSet2State()) && Removed(WrapSet2State(), 2) == WrapEvictState()
    ensures Shrinks(WrapSet2State(), Outcome(Diverges, WrapEvictState()))
    ensures forall r :: Shrinks(WrapSet2State(), r) ==> r == Outcome(Diverges, WrapEvictState())
  {
    var t := WrapSet2State();
    assert t.entries.Keys == {2} && |t.entries| == 1;
    assert HeadItems(t) == {2};
    assert Without([1], 1) == [];
    assert t.buckets - {1} == map[] && t.entries - {2} == map[];
    assert Removed(t, 2) == WrapEvictState();
    ShrinkIntro(t, 2, Outcome(Diverges, WrapEvictState()));
    forall r | Shrinks(t, r) ensures r == Outcome(Diverges, WrapEvictState()) {
      var k := ShrinkPick(t, r);
    }
  }

  // ---------------------------------------------------------------- the cache object

  class Cache<K(==,!new), V(!new)> {
    var size: u64
    var order: seq<int>
    var buckets: map<int, set<K>>
    var entries: map<K, Entry<V>>
    var limits: Limits

    function View(): State<K, V>
      reads this
    {
      State(size, order, buckets, entries, limits)
    }

    /** cache/lfu/lfu.go:39-53: an empty cache with a copy of the option's limits, none for nil. */
    constructor (o: Option<Limits>)
      ensures Inv(View())
      ensures size == 0 && order == [] && entries == map[]
      ensures limits == (if o.None? then Limits(0, 0) else o.value)
    {
      size := 0;
      order := [];
      buckets := map[];
      entries := map[];
      limits := if o.None? then Limits(0, 0) else o.value;
    }

    /** cache/lfu/lfu.go:188-223, with the entry's new data stored first. */
    method Increment(key: K, data: Data<V>, cur: Option<int>)
      requires Inv(View()) && (cur.Some? ==> cur.value in buckets)
      modifies this
      ensures View() == Incremented(old(View()), key, data, cur)
    {
      ghost var s := View();
      var freq: int;
      var at: nat;
      if cur.None? {
        freq := 1;
        at := 0;
      } else {
        freq := cur.value + 1;
        at := IndexOf(order, cur.value) + 1;
      }
      if at >= |order| || order[at] != freq {
        FreshShape(s, key, data, cur, freq, at);
        if cur.Some? {
          order := order[..at] + [freq] + order[at..];
          buckets := buckets[cur.value := buckets[cur.value] - {key}];
        } else {
          PushFront(order, freq);
          order := [freq] + order;
        }
        buckets := buckets[freq := {key}];
      } else {
        ReuseShape(s, key, data, cur, freq, at);
        buckets := buckets[freq := buckets[freq] + {key}];
      }
      entries := entries[key := Entry(data, freq)];
    }

    /** cache/lfu/lfu.go:148-162. */
    method RemoveElement(key: K)
      requires key in entries
      modifies this
      ensures View() == Removed(old(View()), key)
    {
      var e := entries[key];
      size := SubU64(size, e.data.size);
      var p := e.parent;
      var items := if p in buckets then buckets[p] - {key} else {};
      entries := entries - {key};
      if items == {} {
        order := Without(order, p);
        buckets := buckets - {p};
      } else {
        buckets := buckets[p := items];
      }
    }

    /** cache/lfu/lfu.go:164-175. */
    method EvictElement(n: int) returns (st: Status)
      requires Inv(View())
      modifies this
      ensures Inv(View())
      ensures EvictsTo(old(View()), n, Outcome(st, View()))
    {
      var left := n;
      ghost var start := View();
      while left > 0 && |entries| > 0
        invariant Inv(View())
        invariant forall r :: EvictsTo(View(), left, r) ==> EvictsTo(start, n, r)
        decreases left
      {
        ghost var pre := View();
        var next := left - 1;
        st := EvictRound(left);
        if st == Panics {
          return Panics;
        }
        EvictChain(start, n, pre, left, View(), next);
        left := next;
      }
      return Completed;
    }

    /** One round of the loop of `evictElement` (cache/lfu/lfu.go:166-172), the `left`-th from the end.
        The inner `range ... break` takes an arbitrary key of the head node; a key without an entry is
        the nil dereference, returned as `Panics` with nothing changed. */
    method EvictRound(ghost left: int) returns (st: Status)
      requires Inv(View()) && left > 0 && |entries| > 0
      modifies this
      ensures Inv(View()) && st != Diverges
      ensures st == Panics ==> View() == old(View()) && EvictsTo(old(View()), left, Outcome(Panics, View()))
      ensures st == Completed ==> forall r :: EvictsTo(View(), left - 1, r) ==> EvictsTo(old(View()), left, r)
    {
      ghost var pre := View();
      HeadIsLeast(pre);
      var head := buckets[order[0]];
      if head != {} {
        var key :| key in head;
        if key !in entries {
          EvictIntro(pre, left, key, Outcome(Panics, pre));
          return Panics;
        }
        EvictLiveRound(pre, left, left - 1, key);
        RemoveKept(pre, key);
        RemoveElement(key);
      } else {
        EvictEmptyRound(pre, left, left - 1);
      }
      return Completed;
    }

    /** cache/lfu/lfu.go:177-186. Where the source spins forever this returns `Diverges`. */
    method CheckCapacity() returns (st: Status)
      requires Inv(View())
      modifies this
      ensures Inv(View())
      ensures Shrinks(old(View()), Outcome(st, View()))
    {
      if limits.capacity == 0 && limits.maxElements == 0 {
        LimitsDual(limits, size, |entries|);
        return Completed;
      }
      ghost var start := View();
      while OverLimit(limits, size, |entries|)
        invariant Inv(View())
        invariant forall r :: Shrinks(View(), r) ==> Shrinks(start, r)
        decreases |entries|
      {
        ghost var pre := View();
        if |entries| == 0 || HeadItems(View()) == {} {
          // evictElement(1) removes nothing from here on
          assert Shrinks(pre, Outcome(Diverges, pre));
          return Diverges;
        }
        st := ShrinkOnce();
        if st == Panics {
          return Panics;
        }
        ShrinkChain(start, pre, View());
      }
      return Completed;
    }

    /** The `evictElement(1)` of one turn of the loop of `checkCapacity`. */
    method ShrinkOnce() returns (st: Status)
      requires Inv(View()) && OverLimit(limits, size, |entries|) && |entries| > 0 && HeadItems(View()) != {}
      modifies this
      ensures Inv(View()) && st != Diverges
      ensures st == Panics ==> Shrinks(old(View()), Outcome(Panics, View()))
      ensures st == Completed ==>
        |entries| < old(|entries|) && forall r :: Shrinks(View(), r) ==> Shrinks(old(View()), r)
    {
      ghost var pre := View();
      st := EvictElement(1);
      ShrinkRound(pre, Outcome(st, View()));
    }

    /** cache/lfu/lfu.go:55-73. */
    method Set(key: K, data: Data<V>) returns (st: Status)
      requires Inv(View())
      modifies this
      ensures Inv(View())
      ensures Shrinks(SetTouch(old(View()), key, data), Outcome(st, View()))
    {
      var cur := if key in entries then Some(entries[key].parent) else None;
      IncrementSpec(View(), key, data, cur);
      Increment(key, data, cur);
      st := CheckCapacity();
    }

    /** cache/lfu/lfu.go:75-85. */
    method Get(key: K) returns (d: Option<Data<V>>)
      requires Inv(View())
      modifies this
      ensures Inv(View())
      ensures (d, View()) == GetOp(old(View()), key)
    {
      if key in entries {
        var e := entries[key];
        IncrementSpec(View(), key, e.data, Some(e.parent));
        Increment(key, e.data, Some(e.parent));
        return Some(e.data);
      }
      return None;
    }

    /** cache/lfu/lfu.go:87-95. */
    method Delete(key: K)
      requires Inv(View())
      modifies this
      ensures Inv(View())
      ensures View() == DeleteOp(old(View()), key)
    {
      if key in entries {
        RemoveSpec(View(), key);
        RemoveElement(key);
      }
    }

    /** cache/lfu/lfu.go:97-102. */
    method Size() returns (r: u64)
      ensures r == size
    {
      r := size;
    }

    /** cache/lfu/lfu.go:104-109. */
    method ElementsCount() returns (r: nat)
      ensures r == |entries|
    {
      r := |entries|;
    }

    /** cache/lfu/lfu.go:111-116. */
    method Capacity() returns (r: u64)
      ensures r == limits.capacity
    {
      r := limits.capacity;
    }

    /** cache/lfu/lfu.go:118-124. */
    method SetCapacity(capacity: u64) returns (st: Status)
      requires Inv(View())
      modifies this
      ensures Inv(View())
      ensures Shrinks(old(View()).(limits := old(limits).(capacity := capacity)), Outcome(st, View()))
    {
      limits := limits.(capacity := capacity);
      st := CheckCapacity();
    }

    /** cache/lfu/lfu.go:126-134. */
    method Clear()
      modifies this
      ensures Inv(View())
      ensures View() == ClearOp(old(View()))
    {
      order := [];
      buckets := map[];
      size := 0;
      entries := map[];
    }

    /** cache/lfu/lfu.go:136-146. */
    method Evict(n: int) returns (st: Status)
      requires Inv(View())
      modifies this
      ensures Inv(View())
      ensures EvictsTo(old(View()), n, Outcome(st, View()))
    {
      if n <= 0 {
        return Completed;
      }
      st := EvictElement(n);
    }
  }
}
