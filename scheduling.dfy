/** scheduling/roundrobin/roundrobin.go: an interleaved weighted round-robin selector.
    A node is represented by its weight (its `Weight()` is fixed data) and identified
    by its position in the list. Weights and the threshold are Go `int`s (64 bits). */
module Scheduling {
  import opened Common
  import Util

  /** What one call of `Next` returns: the node at a position, or nil. */
  datatype Pick = Node(index: nat) | Nil

  /** The weights converted to `uint` (roundrobin.go:33-37). */
  function UintWeights(nodes: seq<i64>): (r: seq<u64>)
    ensures |r| == |nodes|
    ensures forall i :: 0 <= i < |nodes| ==> r[i] == ToUint(nodes[i])
  {
    seq(|nodes|, i requires 0 <= i < |nodes| => ToUint(nodes[i]))
  }

  /** `int(rr.gcd())` (roundrobin.go:32-40, :59): the gcd of the weights as `uint`, converted back. */
  function GcdWeight(nodes: seq<i64>): i64
  {
    ToInt(Util.GcdOf(UintWeights(nodes)))
  }

  /** The running maximum of roundrobin.go:42-52, starting from 0. */
  function MaxOf(nodes: seq<i64>): (m: i64)
    ensures m >= 0
  {
    if |nodes| == 0 then 0
    else
      var m := MaxOf(nodes[..|nodes| - 1]);
      if nodes[|nodes| - 1] > m then nodes[|nodes| - 1] else m
  }

  /** roundrobin.go:42-52: the largest weight, or 0 when no weight is positive. */
  lemma {:induction false} MaxOfSpec(nodes: seq<i64>)
    ensures MaxOf(nodes) >= 0
    ensures forall i :: 0 <= i < |nodes| ==> nodes[i] <= MaxOf(nodes)
    ensures MaxOf(nodes) == 0 || exists i :: 0 <= i < |nodes| && nodes[i] == MaxOf(nodes)
  {
    if |nodes| > 0 {
      var init := nodes[..|nodes| - 1];
      MaxOfSpec(init);
      assert forall i :: 0 <= i < |init| ==> nodes[i] == init[i];
      if MaxOf(init) > 0 && nodes[|nodes| - 1] <= MaxOf(init) {
        var i :| 0 <= i < |init| && init[i] == MaxOf(init);
        assert nodes[i] == MaxOf(nodes);
      }
    }
  }

  /** With a positive largest weight, the gcd used by `Next` lies between 0 and that weight:
      it divides the `uint` image of a positive weight, which is that weight itself. */
  lemma GcdWeightBounds(nodes: seq<i64>)
    requires MaxOf(nodes) > 0
    ensures 0 <= GcdWeight(nodes) <= MaxOf(nodes)
  {
    MaxOfSpec(nodes);
    var uw := UintWeights(nodes);
    var j :| 0 <= j < |nodes| && nodes[j] == MaxOf(nodes);
    if |uw| >= 2 {
      Util.GcdOfZeroIff(uw);
      if 0 !in uw {
        assert forall i :: 0 <= i < |uw| ==> uw[i] > 0;
        Util.GcdOfIsGcd(uw);
        Util.DividesBound(Util.GcdOf(uw), uw[j]);
      }
    }
  }

  /** With at least two nodes, all of positive weight, the gcd is positive and no larger than any weight. */
  lemma GcdWeightPositive(nodes: seq<i64>)
    requires |nodes| >= 2
    requires forall i :: 0 <= i < |nodes| ==> nodes[i] > 0
    ensures 0 < GcdWeight(nodes)
    ensures forall i :: 0 <= i < |nodes| ==> GcdWeight(nodes) <= nodes[i]
  {
    var uw := UintWeights(nodes);
    assert forall i :: 0 <= i < |uw| ==> uw[i] > 0;
    Util.GcdOfIsGcd(uw);
    var g := Util.GcdOf(uw);
    Util.DividesBound(g, uw[0]);
    assert g <= nodes[0] < 0x8000_0000_0000_0000;
    assert GcdWeight(nodes) == g;
    forall i | 0 <= i < |nodes| ensures GcdWeight(nodes) <= nodes[i] {
      Util.DividesBound(g, uw[i]);
    }
  }

  /** `(index + 1) % n` for an index in [-1, n). */
  function Succ(n: nat, index: int): (i: nat)
    requires n > 0
    requires -1 <= index < n
    ensures i < n
    ensures i == (index + 1) % n
  {
    if index + 1 == n then 0 else index + 1
  }

  /** The threshold after a wrap to position 0 (roundrobin.go:59-63): lowered by the gcd, and reset to
      the largest weight once it is not positive. */
  function Lowered(nodes: seq<i64>, t: i64): i64
  {
    var w := SubI64(t, GcdWeight(nodes));
    if w <= 0 then MaxOf(nodes) else w
  }

  /** The states `Next` can be called in without looping forever: a non-negative threshold that, when
      the gcd is 0, is no larger than the largest weight. */
  predicate Admissible(nodes: seq<i64>, index: int, weight: i64)
  {
    && 0 < |nodes| && -1 <= index < |nodes| && 0 <= weight
    && (GcdWeight(nodes) == 0 ==> weight <= MaxOf(nodes))
  }

  /** Some node after position `index` meets the threshold. */
  ghost predicate HasLater(nodes: seq<i64>, index: int, weight: int)
  {
    exists j :: 0 <= j < |nodes| && index < j && nodes[j] >= weight
  }

  /** First part of the termination measure of `Next`: 0 while a node ahead of the index meets the threshold. */
  ghost function Rank1(nodes: seq<i64>, index: int, weight: int): nat
  {
    if index >= 0 && HasLater(nodes, index, weight) then 0 else 1
  }

  /** Second part: the distance the threshold still has to move in the direction the gcd moves it. */
  function Rank2(nodes: seq<i64>, weight: i64): nat
    requires weight >= 0
  {
    if GcdWeight(nodes) > 0 then weight else 0x8000_0000_0000_0000 - weight
  }

  /** A wrap that lands on no node brings the measure down and keeps the state admissible. */
  lemma WrapStep(nodes: seq<i64>, index: int, weight: i64)
    requires Admissible(nodes, index, weight) && Succ(|nodes|, index) == 0
    requires !(SubI64(weight, GcdWeight(nodes)) <= 0 && MaxOf(nodes) == 0)
    requires nodes[0] < Lowered(nodes, weight)
    ensures Admissible(nodes, 0, Lowered(nodes, weight))
    ensures Rank1(nodes, 0, Lowered(nodes, weight)) < Rank1(nodes, index, weight)
      || (Rank1(nodes, 0, Lowered(nodes, weight)) == Rank1(nodes, index, weight)
          && Rank2(nodes, Lowered(nodes, weight)) < Rank2(nodes, weight))
  {
    MaxOfSpec(nodes);
    var w := Lowered(nodes, weight);
    assert !HasLater(nodes, index, weight) || index < 0;
    if w <= MaxOf(nodes) {
      var j :| 0 <= j < |nodes| && nodes[j] == MaxOf(nodes);
      assert 0 < j;
      assert HasLater(nodes, 0, w);
    }
  }

  /** Moving past a node that misses the threshold keeps the first part of the measure. */
  lemma ScanStep(nodes: seq<i64>, index: int, weight: i64)
    requires Admissible(nodes, index, weight) && Succ(|nodes|, index) != 0
    requires nodes[index + 1] < weight
    ensures Admissible(nodes, index + 1, weight)
    ensures Rank1(nodes, index + 1, weight) == Rank1(nodes, index, weight)
  {
    if HasLater(nodes, index, weight) {
      var j :| index < j < |nodes| && nodes[j] >= weight;
      assert index + 1 < j;
      assert HasLater(nodes, index + 1, weight);
    }
  }

  /** The loop of `Next` (roundrobin.go:54-75), one iteration per recursive call: advance the index
      cyclically; on a wrap to 0 lower the threshold by the gcd and, once it is not positive, reset it to
      the largest weight, giving up with nil when that is 0; return the first node that meets the threshold.
      The result is the pick and the new `index` and `weight`. */
  function Search(nodes: seq<i64>, index: int, weight: i64): (r: (Pick, int, i64))
    requires Admissible(nodes, index, weight)
    ensures 0 <= r.1 < |nodes| && 0 <= r.2
    decreases Rank1(nodes, index, weight), Rank2(nodes, weight), |nodes| - index
  {
    var i := Succ(|nodes|, index);
    if i == 0 then
      if SubI64(weight, GcdWeight(nodes)) <= 0 && MaxOf(nodes) == 0 then (Nil, 0, 0)
      else
        var w := Lowered(nodes, weight);
        if nodes[0] >= w then (Node(0), 0, w)
        else
          WrapStep(nodes, index, weight);
          Search(nodes, 0, w)
    else if nodes[i] >= weight then (Node(i), i, weight)
    else
      ScanStep(nodes, index, weight);
      Search(nodes, i, weight)
  }

  /** roundrobin.go:61-72: nil only comes out when no weight is positive; a returned node is the new
      `index` and its weight meets the new threshold; the threshold stays within [0, largest weight]. */
  lemma {:induction false} SearchResult(nodes: seq<i64>, index: int, weight: i64)
    requires Admissible(nodes, index, weight)
    ensures var r := Search(nodes, index, weight);
      && (r.0 == Nil ==> MaxOf(nodes) == 0 && r.2 == 0)
      && (r.0.Node? ==> r.0.index == r.1 && nodes[r.1] >= r.2)
      && 0 <= r.2 <= MaxOf(nodes)
    decreases Rank1(nodes, index, weight), Rank2(nodes, weight), |nodes| - index
  {
    MaxOfSpec(nodes);
    var i := Succ(|nodes|, index);
    if i == 0 {
      var w := Lowered(nodes, weight);
      if !(SubI64(weight, GcdWeight(nodes)) <= 0 && MaxOf(nodes) == 0) && nodes[0] < w {
        WrapStep(nodes, index, weight);
        SearchResult(nodes, 0, w);
      }
    } else if nodes[i] < weight {
      ScanStep(nodes, index, weight);
      SearchResult(nodes, i, weight);
    }
  }

  /** The states `Next` leaves behind: a valid position (or the initial -1) and a threshold in
      [0, largest weight]. */
  predicate Reachable(nodes: seq<i64>, index: int, weight: i64)
  {
    0 < |nodes| && -1 <= index < |nodes| && 0 <= weight <= MaxOf(nodes)
  }

  /** `Next` from a reachable state terminates and leaves a reachable state. */
  lemma NextKeepsReachable(nodes: seq<i64>, index: int, weight: i64)
    requires Reachable(nodes, index, weight)
    ensures Admissible(nodes, index, weight)
    ensures var r := Search(nodes, index, weight); Reachable(nodes, r.1, r.2)
  {
    SearchResult(nodes, index, weight);
  }

  /** The picks of `k` consecutive calls of `Next`, starting from `index` and `weight`. */
  function Run(nodes: seq<i64>, index: int, weight: i64, k: nat): seq<Pick>
    requires Reachable(nodes, index, weight)
    decreases k
  {
    if k == 0 then []
    else
      NextKeepsReachable(nodes, index, weight);
      var r := Search(nodes, index, weight);
      [r.0] + Run(nodes, r.1, r.2, k - 1)
  }

  /** If every weight is negative, `Next` returns nil: the gcd converts back to a negative number, so the
      threshold climbs on every wrap until the int subtraction wraps around and the largest weight, 0,
      ends the loop. */
  lemma NegativeWeightsGiveNil(nodes: seq<i64>, index: int, weight: i64)
    requires Admissible(nodes, index, weight)
    requires forall i :: 0 <= i < |nodes| ==> nodes[i] < 0
    ensures Search(nodes, index, weight).0 == Nil
  {
    SearchResult(nodes, index, weight);
  }

  /** Without any positive weight, `Next` returns nil or a node of weight 0, and the threshold is 0. */
  lemma NoPositiveWeight(nodes: seq<i64>, index: int, weight: i64)
    requires Admissible(nodes, index, weight) && MaxOf(nodes) == 0
    ensures var r := Search(nodes, index, weight);
      r.2 == 0 && (r.0.Node? ==> nodes[r.1] == 0)
  {
    SearchResult(nodes, index, weight);
    MaxOfSpec(nodes);
    var r := Search(nodes, index, weight);
    assert 0 <= r.1 < |nodes|;
  }

  // ---------------------------------------------------------------- a reference description of Next

  /** The first position at or after `start` whose weight meets threshold `t`. */
  function FirstFrom(nodes: seq<i64>, start: nat, t: int): (r: Option<nat>)
    ensures r.Some? ==> start <= r.value < |nodes| && nodes[r.value] >= t
    ensures r.Some? ==> forall j :: start <= j < r.value ==> nodes[j] < t
    ensures r.None? ==> forall j :: start <= j < |nodes| ==> nodes[j] < t
    decreases |nodes| - start
  {
    if start >= |nodes| then None
    else if nodes[start] >= t then Some(start)
    else FirstFrom(nodes, start + 1, t)
  }

  /** The states `Next` leaves behind when some weight is positive: the initial one, or a valid position
      with a threshold in (0, largest weight]. */
  predicate Settled(nodes: seq<i64>, index: int, weight: i64)
  {
    (index == -1 && weight == 0) || (0 <= index < |nodes| && 0 < weight <= MaxOf(nodes))
  }

  /** An independent description of `Next` when some weight is positive: the next node after `index`
      meeting the threshold, or else, after one wrap, the first node meeting the lowered threshold. */
  function NextRef(nodes: seq<i64>, index: int, weight: i64): (Pick, int, i64)
    requires 0 < |nodes|
  {
    var later := if index >= 0 then FirstFrom(nodes, index + 1, weight) else None;
    if later.Some? then (Node(later.value), later.value, weight)
    else
      var w := Lowered(nodes, weight);
      var first := FirstFrom(nodes, 0, w);
      if first.Some? then (Node(first.value), first.value, w) else (Nil, 0, w)
  }

  /** Scanning forward without a wrap. */
  lemma {:induction false} SearchScan(nodes: seq<i64>, index: int, weight: i64)
    requires Admissible(nodes, index, weight) && 0 <= index
    ensures FirstFrom(nodes, index + 1, weight).Some? ==>
      var j := FirstFrom(nodes, index + 1, weight).value;
      Search(nodes, index, weight) == (Node(j), j, weight)
    ensures FirstFrom(nodes, index + 1, weight).None? ==>
      Search(nodes, index, weight) == Search(nodes, |nodes| - 1, weight)
    decreases |nodes| - index
  {
    if index + 1 < |nodes| && nodes[index + 1] < weight {
      SearchScan(nodes, index + 1, weight);
    }
  }

  /** With a positive largest weight, `Next` from a settled state is `NextRef`, returns a node and leaves
      a settled state. */
  lemma NextMatchesRef(nodes: seq<i64>, index: int, weight: i64)
    requires 0 < |nodes| && MaxOf(nodes) > 0 && Settled(nodes, index, weight)
    ensures Admissible(nodes, index, weight)
    ensures Search(nodes, index, weight) == NextRef(nodes, index, weight)
    ensures NextRef(nodes, index, weight).0.Node?
    ensures Settled(nodes, NextRef(nodes, index, weight).1, NextRef(nodes, index, weight).2)
  {
    MaxOfSpec(nodes);
    GcdWeightBounds(nodes);
    var w := Lowered(nodes, weight);
    assert 0 < w <= MaxOf(nodes);
    var jm :| 0 <= jm < |nodes| && nodes[jm] == MaxOf(nodes);
    assert nodes[jm] >= w;
    assert FirstFrom(nodes, 0, w).Some?;
    if index >= 0 {
      SearchScan(nodes, index, weight);
    }
    if (index == -1 || FirstFrom(nodes, index + 1, weight).None?) && nodes[0] < w {
      assert Admissible(nodes, 0, w);
      SearchScan(nodes, 0, w);
    }
  }

  /** roundrobin.go:56-72: with a positive largest weight, `Next` from a settled state never yields nil,
      returns a position whose weight meets the new threshold, and keeps 0 < weight <= largest weight. */
  lemma NextWithPositiveWeight(nodes: seq<i64>, index: int, weight: i64)
    requires 0 < |nodes| && MaxOf(nodes) > 0 && Settled(nodes, index, weight)
    ensures Admissible(nodes, index, weight)
    ensures var r := Search(nodes, index, weight);
      && r.0.Node? && r.0.index == r.1
      && nodes[r.1] >= r.2 && 0 < r.2 <= MaxOf(nodes)
  {
    NextMatchesRef(nodes, index, weight);
    SearchResult(nodes, index, weight);
  }

  // ---------------------------------------------------------------- sequences of calls

  /** roundrobin_test.go:18-36 generalised: with equal positive weights, `Next` visits the nodes in
      plain cyclic order. */
  lemma EqualWeightsCycle(nodes: seq<i64>, index: int, weight: i64)
    requires 0 < |nodes| && nodes[0] > 0 && forall i :: 0 <= i < |nodes| ==> nodes[i] == nodes[0]
    requires (index == -1 && weight == 0) || (0 <= index < |nodes| && weight == nodes[0])
    ensures Admissible(nodes, index, weight)
    ensures Search(nodes, index, weight) == (Node((index + 1) % |nodes|), (index + 1) % |nodes|, nodes[0])
  {
    MaxOfSpec(nodes);
    var c := nodes[0];
    assert MaxOf(nodes) == c by {
      var j :| 0 <= j < |nodes| && nodes[j] == MaxOf(nodes);
    }
    var uw := UintWeights(nodes);
    if |nodes| >= 2 {
      GcdWeightPositive(nodes);
      Util.DividesSelf(c);
      assert forall i :: 0 <= i < |uw| ==> Util.Divides(c, uw[i]) by {
        assert forall i :: 0 <= i < |uw| ==> uw[i] == c;
      }
      Util.GcdOfIsGcd(uw);
      Util.DividesAntisym(c, Util.GcdOf(uw));
      assert GcdWeight(nodes) == c;
    } else {
      assert GcdWeight(nodes) == 0;
    }
    assert Lowered(nodes, weight) == c;
    NextMatchesRef(nodes, index, weight);
    if index >= 0 && index + 1 < |nodes| {
      assert FirstFrom(nodes, index + 1, weight) == Some(index + 1);
    }
  }

  /** roundrobin_test.go:18-36: four nodes of weight 1 are picked as 1,2,3,4,1,2,3,4. */
  lemma FourEqualNodes()
    ensures Reachable([1, 1, 1, 1], -1, 0)
    ensures Run([1, 1, 1, 1], -1, 0, 8) ==
      [Node(0), Node(1), Node(2), Node(3), Node(0), Node(1), Node(2), Node(3)]
  {
    var ns: seq<i64> := [1, 1, 1, 1];
    assert MaxOf(ns) == 1 by { MaxOfSpec(ns); }
    EqualWeightsCycle(ns, -1, 0);
    EqualWeightsCycle(ns, 0, 1);
    EqualWeightsCycle(ns, 1, 1);
    EqualWeightsCycle(ns, 2, 1);
    EqualWeightsCycle(ns, 3, 1);
  }

  /** The number of wraps after which the threshold, starting at `t`, is at most `target`. */
  function WrapsUntil(nodes: seq<i64>, t: int, target: int): nat
    requires 0 < GcdWeight(nodes) <= target
    decreases t
  {
    if t <= target then 0 else 1 + WrapsUntil(nodes, t - GcdWeight(nodes), target)
  }

  /** Progress measure of the fairness proof for node `p` from state (`index`, `t`). */
  function FairMeasure(nodes: seq<i64>, p: nat, index: int, t: i64): nat
  {
    if p < |nodes| && 0 < GcdWeight(nodes) <= nodes[p] then
      if index < p && t <= nodes[p] then 0 else 1 + WrapsUntil(nodes, Lowered(nodes, t), nodes[p])
    else 0
  }

  /** One wrap more above the target. */
  lemma WrapsUntilStep(nodes: seq<i64>, t: int, target: int)
    requires 0 < GcdWeight(nodes) <= target < t
    ensures WrapsUntil(nodes, t, target) == 1 + WrapsUntil(nodes, t - GcdWeight(nodes), target)
  {
  }

  /** A call of `Next` that wraps lowers the threshold, and some weight reaches the lowered one. */
  lemma WrapPick(nodes: seq<i64>, index: int, t: i64)
    requires 0 < |nodes| && 0 < GcdWeight(nodes)
    requires 0 <= index < |nodes| && 0 < t <= MaxOf(nodes) && FirstFrom(nodes, index + 1, t).None?
    ensures var w := Lowered(nodes, t);
      && 0 < w <= MaxOf(nodes) && FirstFrom(nodes, 0, w).Some?
      && NextRef(nodes, index, t) == (Node(FirstFrom(nodes, 0, w).value), FirstFrom(nodes, 0, w).value, w)
  {
    MaxOfSpec(nodes);
    var w := Lowered(nodes, t);
    assert 0 < w <= MaxOf(nodes);
    var jm :| 0 <= jm < |nodes| && nodes[jm] == MaxOf(nodes);
    assert nodes[jm] >= w;
  }

  /** One call of `Next` that does not pick `p` brings the fairness measure down. */
  lemma FairStep(nodes: seq<i64>, p: nat, index: int, t: i64)
    requires |nodes| >= 2 && p < |nodes|
    requires forall i :: 0 <= i < |nodes| ==> nodes[i] > 0
    requires 0 <= index < |nodes| && 0 < t <= MaxOf(nodes)
    requires NextRef(nodes, index, t).0 != Node(p)
    ensures var r := NextRef(nodes, index, t);
      || FairMeasure(nodes, p, r.1, r.2) < FairMeasure(nodes, p, index, t)
      || (FairMeasure(nodes, p, r.1, r.2) == FairMeasure(nodes, p, index, t) && r.1 > index)
  {
    GcdWeightPositive(nodes);
    if FirstFrom(nodes, index + 1, t).Some? {
      FairStepLater(nodes, p, index, t);
    } else {
      FairStepWrap(nodes, p, index, t);
    }
  }

  /** `FairStep` when a node after `index` meets the threshold. */
  lemma FairStepLater(nodes: seq<i64>, p: nat, index: int, t: i64)
    requires p < |nodes| && 0 < GcdWeight(nodes) <= nodes[p]
    requires 0 <= index < |nodes| && FirstFrom(nodes, index + 1, t).Some?
    requires NextRef(nodes, index, t).0 != Node(p)
    ensures var r := NextRef(nodes, index, t);
      || FairMeasure(nodes, p, r.1, r.2) < FairMeasure(nodes, p, index, t)
      || (FairMeasure(nodes, p, r.1, r.2) == FairMeasure(nodes, p, index, t) && r.1 > index)
  {
    var wp := nodes[p];
    var j := FirstFrom(nodes, index + 1, t).value;
    var r := NextRef(nodes, index, t);
    assert r == (Node(j), j, t);
    var rest := 1 + WrapsUntil(nodes, Lowered(nodes, t), wp);
    if index < p && t <= wp {
      assert j < p;
      assert FairMeasure(nodes, p, r.1, r.2) == 0 == FairMeasure(nodes, p, index, t);
    } else {
      assert FairMeasure(nodes, p, index, t) == rest;
      assert FairMeasure(nodes, p, r.1, r.2) == 0 || FairMeasure(nodes, p, r.1, r.2) == rest;
    }
  }

  /** `FairStep` when the call wraps around to position 0. */
  lemma FairStepWrap(nodes: seq<i64>, p: nat, index: int, t: i64)
    requires p < |nodes| && 0 < GcdWeight(nodes) <= nodes[p]
    requires 0 <= index < |nodes| && 0 < t <= MaxOf(nodes) && FirstFrom(nodes, index + 1, t).None?
    requires NextRef(nodes, index, t).0 != Node(p)
    ensures var r := NextRef(nodes, index, t);
      FairMeasure(nodes, p, r.1, r.2) < FairMeasure(nodes, p, index, t)
  {
    var g := GcdWeight(nodes);
    var wp := nodes[p];
    var r := NextRef(nodes, index, t);
    var w := Lowered(nodes, t);
    WrapPick(nodes, index, t);
    var first := FirstFrom(nodes, 0, w);
    assert !(index < p && t <= wp);
    assert FairMeasure(nodes, p, index, t) == 1 + WrapsUntil(nodes, w, wp);
    if w <= wp {
      assert first.value < p;
      assert FairMeasure(nodes, p, r.1, r.2) == 0;
    } else {
      assert Lowered(nodes, w) == w - g;
      WrapsUntilStep(nodes, w, wp);
      assert !(r.1 < p && r.2 <= wp);
      assert FairMeasure(nodes, p, r.1, r.2) == 1 + WrapsUntil(nodes, Lowered(nodes, w), wp);
    }
  }

  /** roundrobin_test.go:38-58: with at least two nodes, all of positive weight, every node is
      eventually picked from any settled state. */
  lemma {:induction false} EveryNodeEventuallyPicked(nodes: seq<i64>, p: nat, index: int, t: i64)
    requires |nodes| >= 2 && p < |nodes|
    requires forall i :: 0 <= i < |nodes| ==> nodes[i] > 0
    requires Settled(nodes, index, t)
    ensures Reachable(nodes, index, t)
    ensures exists k: nat :: Node(p) in Run(nodes, index, t, k)
    decreases if index == -1 then 1 else 0, FairMeasure(nodes, p, index, t), |nodes| - index
  {
    MaxOfSpec(nodes);
    assert MaxOf(nodes) >= nodes[0] > 0;
    NextMatchesRef(nodes, index, t);
    var r := Search(nodes, index, t);
    assert Run(nodes, index, t, 1) == [r.0] + Run(nodes, r.1, r.2, 0);
    if r.0 == Node(p) {
      assert Node(p) in Run(nodes, index, t, 1);
    } else {
      if index >= 0 {
        FairStep(nodes, p, index, t);
      }
      EveryNodeEventuallyPicked(nodes, p, r.1, r.2);
      var k: nat :| Node(p) in Run(nodes, r.1, r.2, k);
      assert Run(nodes, index, t, k + 1) == [r.0] + Run(nodes, r.1, r.2, k);
    }
  }

  // ---------------------------------------------------------------- edge cases of the source

  /** With all weights 0 the calls alternate between nil and the weight-0 second node. */
  lemma ZeroWeightsAlternate()
    ensures Admissible([0, 0], -1, 0) && Admissible([0, 0], 0, 0)
    ensures Search([0, 0], -1, 0) == (Nil, 0, 0)
    ensures Search([0, 0], 0, 0) == (Node(1), 1, 0)
  {
    var ns: seq<i64> := [0, 0];
    assert MaxOf(ns) == 0 by { MaxOfSpec(ns); }
    assert UintWeights(ns) == [0, 0];
    assert GcdWeight(ns) == 0;
  }

  // ---------------------------------------------------------------- the selector object

  class RoundRobin {
    const nodes: seq<i64>
    var index: int
    var weight: i64

    /** The state is one `Next` leaves behind. */
    ghost predicate Valid()
      reads this
    {
      -1 <= index < |nodes| && 0 <= weight <= MaxOf(nodes)
    }

    /** roundrobin.go:18-30: copies the nodes in order; index -1, weight 0. */
    constructor (ns: seq<i64>)
      ensures Valid()
      ensures nodes == ns && index == -1 && weight == 0
    {
      nodes := ns;
      index := -1;
      weight := 0;
      MaxOfSpec(ns);
    }

    /** roundrobin.go:32-40: the weights as `uint`, folded with `Util.Gcd`. */
    method Gcd() returns (g: u64)
      ensures g == Util.GcdOf(UintWeights(nodes))
    {
      var weights := new u64[|nodes|];
      for i := 0 to |nodes|
        invariant forall j :: 0 <= j < i ==> weights[j] == ToUint(nodes[j])
      {
        weights[i] := ToUint(nodes[i]);
      }
      assert weights[..] == UintWeights(nodes);
      g := Util.Gcd(weights[..]);
    }

    /** roundrobin.go:42-52: the largest weight, or 0 when none is positive. */
    method MaxWeight() returns (weight: i64)
      ensures weight == MaxOf(nodes)
      ensures weight >= 0 && forall i :: 0 <= i < |nodes| ==> nodes[i] <= weight
      ensures weight == 0 || exists i :: 0 <= i < |nodes| && nodes[i] == weight
    {
      MaxOfSpec(nodes);
      weight := 0;
      for i := 0 to |nodes|
        invariant weight == MaxOf(nodes[..i])
      {
        assert nodes[..i + 1][..i] == nodes[..i];
        if nodes[i] > weight {
          weight := nodes[i];
        }
      }
      assert nodes[..|nodes|] == nodes;
    }

    /** roundrobin.go:54-75. The source divides by zero on an empty node list. */
    method Next() returns (p: Pick)
      requires Valid() && |nodes| > 0
      modifies this
      ensures Valid()
      ensures Admissible(nodes, old(index), old(weight))
      ensures (p, index, weight) == Search(nodes, old(index), old(weight))
    {
      NextKeepsReachable(nodes, index, weight);
      ghost var goal := Search(nodes, index, weight);
      while true
        invariant Admissible(nodes, index, weight)
        invariant Search(nodes, index, weight) == goal
        decreases Rank1(nodes, index, weight), Rank2(nodes, weight), |nodes| - index
      {
        ghost var index0, weight0 := index, weight;
        index := (index + 1) % |nodes|;
        if index == 0 {
          var g := Gcd();
          weight := SubI64(weight, ToInt(g));
          if weight <= 0 {
            weight := MaxWeight();
            if weight == 0 {
              return Nil;
            }
          }
        }
        if nodes[index] >= weight {
          return Node(index);
        }
        if index == 0 {
          WrapStep(nodes, index0, weight0);
        } else {
          ScanStep(nodes, index0, weight0);
        }
      }
    }
  }
}
