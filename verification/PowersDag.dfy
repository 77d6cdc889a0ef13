/** The DAG that says how to compute all target powers of a query from a few source powers
    (`PowersDag` in powers.h and powers.cpp). */
module PowersDag {
  import opened Exceptions

  type u32 = x: nat | x < 0x1_0000_0000

  ghost predicate Ascending(s: seq<u32>) {
    forall i, j :: 0 <= i < j < |s| ==> s[i] < s[j]
  }

  /** A `std::set<uint32_t>`, as the ascending sequence its iterators run through. */
  type PowerSet = s: seq<u32> | Ascending(s) witness []

  datatype PowersNode = PowersNode(power: u32, depth: u32, p1: u32, p2: u32) {
    predicate IsSource() { p1 == 0 && p2 == 0 }
  }

  type Nodes = map<u32, PowersNode>

  function Max(a: nat, b: nat): nat { if a < b then b else a }

  /** n can be written as a sum of two targets (positive ones, when 0 is not a target). */
  ghost predicate SplitsAt(target: seq<u32>, n: nat, s: u32) {
    s in target && s < n && n - s in target
  }

  ghost predicate Splittable(target: seq<u32>, n: nat) {
    exists s :: SplitsAt(target, n, s)
  }

  ghost predicate AllSplittable(source: seq<u32>, target: seq<u32>) {
    forall n :: n in target && n !in source ==> Splittable(target, n)
  }

  /** The arguments `configure` accepts. */
  ghost predicate Acceptable(source: seq<u32>, target: seq<u32>) {
    && 0 !in source && 1 in source
    && 0 !in target && 1 in target
    && forall s :: s in source ==> s in target
  }

  /** Depth of the node for s + t when it is computed from s and t. */
  function DepthVia(nodes: Nodes, s: u32, t: u32): nat
    requires s in nodes && t in nodes
  {
    Max(nodes[s].depth, nodes[t].depth) + 1
  }

  ghost predicate Covers(nodes: Nodes, target: seq<u32>, n: nat) {
    forall s :: s in target && s < n ==> s in nodes && nodes[s].power == s && nodes[s].depth < s
  }

  /** What `configure` leaves for a target power that is not a source: no split beats its depth, and
      either its parents are a split that attains the depth, or there is no split at all and the
      parents are the default (n-1, 1) that the loop never replaced. */
  ghost predicate ComputedNode(nodes: Nodes, target: seq<u32>, n: u32)
    requires Covers(nodes, target, n)
  {
    && n > 1 && n in nodes
    && var node := nodes[n];
    && node.power == n && node.p1 > 0 && node.p2 > 0 && node.p1 + node.p2 == n
    && node.depth < n
    && (forall s :: SplitsAt(target, n, s) ==> node.depth <= DepthVia(nodes, s, n - s))
    && if Splittable(target, n) then
         SplitsAt(target, n, node.p1) && node.depth == DepthVia(nodes, node.p1, node.p2)
       else
         node.p1 == n - 1 && node.p1 !in target && node.p2 == 1 && node.depth == n - 1
  }

  ghost predicate NodeFor(nodes: Nodes, source: seq<u32>, target: seq<u32>, n: u32) {
    Covers(nodes, target, n) &&
    if n in source then n in nodes && nodes[n] == PowersNode(n, 0, 0, 0)
    else ComputedNode(nodes, target, n)
  }

  ghost predicate NodesBefore(nodes: Nodes, source: seq<u32>, target: seq<u32>, i: nat)
    requires i <= |target|
  {
    forall k :: 0 <= k < i ==> NodeFor(nodes, source, target, target[k])
  }

  ghost predicate SourcesIn(nodes: Nodes, source: seq<u32>) {
    forall s :: s in source ==> s in nodes && nodes[s] == PowersNode(s, 0, 0, 0)
  }

  /** `more` has the nodes of `nodes`, changed at most at targets. */
  ghost predicate KeepsOthers(nodes: Nodes, more: Nodes, target: seq<u32>) {
    forall k :: k in nodes ==> k in more && (k !in target ==> more[k] == nodes[k])
  }

  /** d is the largest depth among the first i targets (0 if there are none). */
  ghost predicate DeepestBefore(nodes: Nodes, target: seq<u32>, i: nat, d: nat)
    requires i <= |target|
  {
    && (forall k :: 0 <= k < i ==> target[k] in nodes && nodes[target[k]].depth <= d)
    && (d == 0 || exists k :: 0 <= k < i && nodes[target[k]].depth == d)
  }

  /** The node map of a configured DAG. */
  ghost predicate Configured(nodes: Nodes, source: seq<u32>, target: seq<u32>) {
    && Acceptable(source, target)
    && forall n :: n in target ==> NodeFor(nodes, source, target, n)
  }

  // ---------- Every way of computing a power ----------

  /** A way to compute a power: a given query power, or the product of two computed ones. A DAG
      gives one such tree per node; trees are more general, they need not share. */
  datatype Derivation = Given(u32) | Product(Derivation, Derivation) {
    function Power(): nat {
      match this
      case Given(s) => s
      case Product(l, r) => l.Power() + r.Power()
    }

    function Depth(): nat {
      match this
      case Given(_) => 0
      case Product(l, r) => Max(l.Depth(), r.Depth()) + 1
    }

    /** Starts from sources only and never leaves the target set. */
    ghost predicate Within(source: seq<u32>, target: seq<u32>) {
      match this
      case Given(s) => s in source
      case Product(l, r) =>
        l.Within(source, target) && r.Within(source, target) && l.Power() + r.Power() in target
    }
  }

  lemma {:induction false} WithinTargets(t: Derivation, source: seq<u32>, target: seq<u32>)
    requires Acceptable(source, target) && t.Within(source, target)
    ensures t.Power() in target
  {
  }

  /** No computation of a power inside the target set is shallower than its node, whatever the
      targets are. */
  lemma {:induction false} NoShallowerDerivation(
    nodes: Nodes, source: seq<u32>, target: seq<u32>, t: Derivation)
    requires Configured(nodes, source, target) && t.Within(source, target)
    ensures t.Power() in target && t.Power() in nodes && nodes[t.Power()].depth <= t.Depth()
  {
    WithinTargets(t, source, target);
    var n: u32 := t.Power();
    assert NodeFor(nodes, source, target, n);
    match t
    case Given(_) =>
    case Product(l, r) =>
      NoShallowerDerivation(nodes, source, target, l);
      NoShallowerDerivation(nodes, source, target, r);
      if n !in source {
        assert SplitsAt(target, n, l.Power());
      }
  }

  /** If every computed target splits, unfolding a node's parents is a computation of its power,
      of exactly the node's depth. */
  lemma {:induction false} DepthIsAttained(
    nodes: Nodes, source: seq<u32>, target: seq<u32>, n: u32) returns (t: Derivation)
    requires Configured(nodes, source, target) && AllSplittable(source, target) && n in target
    ensures t.Within(source, target) && t.Power() == n && t.Depth() == nodes[n].depth
  {
    assert NodeFor(nodes, source, target, n);
    if n in source {
      t := Given(n);
    } else {
      var node := nodes[n];
      assert SplitsAt(target, n, node.p1);
      var l := DepthIsAttained(nodes, source, target, node.p1);
      var r := DepthIsAttained(nodes, source, target, node.p2);
      t := Product(l, r);
    }
  }

  /** The default parents are not checked by `configure`. They name a power that is not a target
      exactly when the power has no split, so a configured DAG is usable (every parent is a target
      and so `parallel_apply` finds it) if and only if every computed target splits. */
  lemma ParentsAreTargetsIff(nodes: Nodes, source: seq<u32>, target: seq<u32>)
    requires Configured(nodes, source, target)
    ensures AllSplittable(source, target) <==>
            forall n :: n in target && n !in source ==> nodes[n].p1 in target && nodes[n].p2 in target
  {
    forall n | n in target && n !in source
      ensures Splittable(target, n) <==> nodes[n].p1 in target && nodes[n].p2 in target
    {
      assert NodeFor(nodes, source, target, n);
      if Splittable(target, n) {
        assert SplitsAt(target, n, nodes[n].p1);
      }
    }
  }

  /** What the whole map depends on: nodes below and at n. */
  lemma NodeForExtends(nodes: Nodes, more: Nodes, source: seq<u32>, target: seq<u32>, n: u32)
    requires NodeFor(nodes, source, target, n)
    requires forall k :: k <= n && k in nodes ==> k in more && more[k] == nodes[k]
    ensures NodeFor(more, source, target, n)
  {
    assert Covers(more, target, n);
    if n !in source {
      forall s | SplitsAt(target, n, s) ensures DepthVia(more, s, n - s) == DepthVia(nodes, s, n - s) {}
    }
  }

  /** The nodes `source_nodes` reports: those whose parents are both 0. */
  ghost function SourceNodesOf(nodes: Nodes): set<PowersNode> {
    set k | k in nodes && nodes[k].IsSource() :: nodes[k]
  }

  ghost function NodesFor(source: seq<u32>): set<PowersNode> {
    set s | s in source :: PowersNode(s, 0, 0, 0)
  }

  /** `reset` forgets everything but the nodes, so `source_nodes` reports exactly the sources if and
      only if no source left over from an earlier configuration lies outside the new targets. */
  lemma SourceNodesExactIff(stale: Nodes, nodes: Nodes, source: seq<u32>, target: seq<u32>)
    requires Configured(nodes, source, target)
    requires nodes.Keys == stale.Keys + (set n | n in target) && KeepsOthers(stale, nodes, target)
    requires forall k :: k in stale ==> stale[k].power == k
    ensures SourceNodesOf(nodes) == NodesFor(source) <==>
            forall k :: k in stale && stale[k].IsSource() ==> k in target
  {
    forall n | n in target ensures nodes[n].IsSource() <==> n in source {
      assert NodeFor(nodes, source, target, n);
    }
    forall s | s in source ensures nodes[s] == PowersNode(s, 0, 0, 0) && nodes[s] in SourceNodesOf(nodes) {
      assert NodeFor(nodes, source, target, s);
    }
    if forall k :: k in stale && stale[k].IsSource() ==> k in target {
      forall x | x in SourceNodesOf(nodes) ensures x in NodesFor(source) {
        var k :| k in nodes && nodes[k].IsSource() && x == nodes[k];
        assert k in target;
        assert x == PowersNode(k, 0, 0, 0);
      }
    } else {
      var k :| k in stale && stale[k].IsSource() && k !in target;
      assert nodes[k] in SourceNodesOf(nodes) && nodes[k].power == k;
      assert nodes[k] !in NodesFor(source);
    }
  }

  /** If the default survives although some split exists, then that split is (n-1, 1): every power
      m has depth at most m-1, so any other split is strictly shallower than n-1. */
  lemma DefaultOnlyWithoutBetter(nodes: Nodes, target: PowerSet, n: u32, best: u32, s1: u32, s2: u32)
    requires n > 1 && 0 !in target && 1 in target && Covers(nodes, target, n)
    requires s1 == n - 1 && s2 == 1 && best == n - 1
    requires forall s :: SplitsAt(target, n, s) ==> best <= DepthVia(nodes, s, n - s)
    ensures Splittable(target, n) <==> n - 1 in target
    ensures Splittable(target, n) ==> SplitsAt(target, n, s1) && best == DepthVia(nodes, s1, s2)
  {
    if s :| SplitsAt(target, n, s) {
      assert s == 1 || s == n - 1;
    }
    if n - 1 in target {
      assert SplitsAt(target, n, n - 1);
    }
  }

  lemma BestIsComputedNode(nodes: Nodes, target: PowerSet, n: u32, best: u32, s1: u32, s2: u32)
    requires n > 1 && 0 !in target && 1 in target && Covers(nodes, target, n)
    requires best < n && s1 > 0 && s2 > 0 && s1 + s2 == n
    requires (s1 == n - 1 && s2 == 1 && best == n - 1) ||
             (SplitsAt(target, n, s1) && best == DepthVia(nodes, s1, s2))
    requires forall s :: SplitsAt(target, n, s) ==> best <= DepthVia(nodes, s, n - s)
    ensures ComputedNode(nodes[n := PowersNode(n, best, s1, s2)], target, n)
  {
    var more := nodes[n := PowersNode(n, best, s1, s2)];
    forall s | SplitsAt(target, n, s) ensures DepthVia(nodes, s, n - s) == DepthVia(more, s, n - s) {}
    if s1 == n - 1 && s2 == 1 && best == n - 1 {
      DefaultOnlyWithoutBetter(nodes, target, n, best, s1, s2);
    }
  }

  lemma CoversNext(nodes: Nodes, source: seq<u32>, target: PowerSet, i: nat)
    requires i < |target| && NodesBefore(nodes, source, target, i) && 0 !in target
    ensures Covers(nodes, target, target[i])
  {
    forall s | s in target && s < target[i] ensures s in nodes && nodes[s].power == s && nodes[s].depth < s {
      var k :| 0 <= k < |target| && target[k] == s;
      assert k < i && NodeFor(nodes, source, target, target[k]);
    }
  }

  lemma KeepSource(nodes: Nodes, source: seq<u32>, target: PowerSet, i: nat)
    requires i < |target| && NodesBefore(nodes, source, target, i) && Covers(nodes, target, target[i])
    requires target[i] in source && target[i] in nodes && nodes[target[i]] == PowersNode(target[i], 0, 0, 0)
    ensures NodesBefore(nodes, source, target, i + 1)
  {
  }

  lemma AddNode(nodes: Nodes, source: seq<u32>, target: PowerSet, i: nat, node: PowersNode)
    requires i < |target| && NodesBefore(nodes, source, target, i) && Covers(nodes, target, target[i])
    requires target[i] !in source
    requires ComputedNode(nodes[target[i] := node], target, target[i])
    ensures NodesBefore(nodes[target[i] := node], source, target, i + 1)
  {
    assert NodeFor(nodes[target[i] := node], source, target, target[i]);
    forall k | 0 <= k < i ensures NodeFor(nodes[target[i] := node], source, target, target[k]) {
      NodeForExtends(nodes, nodes[target[i] := node], source, target, target[k]);
    }
  }

  lemma DeepestNext(nodes: Nodes, more: Nodes, target: PowerSet, i: nat, d: nat)
    requires i < |target| && DeepestBefore(nodes, target, i, d) && target[i] in more
    requires forall k :: k in nodes && k != target[i] ==> k in more && more[k] == nodes[k]
    ensures DeepestBefore(more, target, i + 1, Max(d, more[target[i]].depth))
  {
    if Max(d, more[target[i]].depth) == d && d > 0 {
      var k :| 0 <= k < i && nodes[target[k]].depth == d;
      assert more[target[k]].depth == d;
    }
  }

  ghost function Elements(target: seq<u32>, i: nat): set<u32>
    requires i <= |target|
  {
    if i == 0 then {} else Elements(target, i - 1) + {target[i - 1]}
  }

  lemma {:induction false} ElementsAll(target: seq<u32>, i: nat)
    requires i <= |target|
    ensures Elements(target, i) == set n | n in target[..i]
    ensures target[..|target|] == target
  {
    if i > 0 {
      ElementsAll(target, i - 1);
      assert target[..i] == target[..i - 1] + [target[i - 1]];
    }
  }

  lemma NothingComputed(nodes: Nodes, source: seq<u32>, target: seq<u32>)
    ensures NodesBefore(nodes, source, target, 0) && DeepestBefore(nodes, target, 0, 0)
    ensures KeepsOthers(nodes, nodes, target)
  {
  }

  lemma KeepsOthersNext(first: Nodes, nodes: Nodes, more: Nodes, target: seq<u32>, i: nat)
    requires i < |target| && KeepsOthers(first, nodes, target)
    requires forall k :: k in nodes ==> k in more && (k != target[i] ==> more[k] == nodes[k])
    ensures KeepsOthers(first, more, target)
  {
  }

  lemma NodesBeforeAll(nodes: Nodes, source: seq<u32>, target: PowerSet)
    requires NodesBefore(nodes, source, target, |target|)
    ensures forall n :: n in target ==> NodeFor(nodes, source, target, n)
  {
    forall n | n in target ensures NodeFor(nodes, source, target, n) {
      var k :| 0 <= k < |target| && target[k] == n;
    }
  }

  lemma BelowNext(target: PowerSet, i: nat)
    requires i < |target|
    ensures forall s :: s in target && (i + 1 < |target| ==> s < target[i + 1]) ==> s <= target[i]
  {
  }

  lemma ConfiguredAtEnd(first: Nodes, start: Nodes, nodes: Nodes, source: PowerSet, target: PowerSet)
    requires Acceptable(source, target) && NodesBefore(nodes, source, target, |target|)
    requires KeepsOthers(first, start, target) && KeepsOthers(start, nodes, target)
    requires start.Keys == first.Keys + Elements(source, |source|)
    requires nodes.Keys == start.Keys + Elements(target, |target|)
    ensures Configured(nodes, source, target) && KeepsOthers(first, nodes, target)
    ensures nodes.Keys == first.Keys + set n | n in target
  {
    NodesBeforeAll(nodes, source, target);
    ElementsAll(source, |source|);
    ElementsAll(target, |target|);
  }

  lemma {:induction false} AscendingLength(s: PowerSet)
    ensures |s| > 0 ==> s[0] + |s| - 1 <= s[|s| - 1]
  {
    if |s| > 1 {
      assert Ascending(s[..|s| - 1]);
      AscendingLength(s[..|s| - 1]);
    }
  }

  /** The smallest configuration that succeeds and is still unusable: 3 does not split over {1, 3},
      so its parents are the default (2, 1) and 2 is not a target. */
  lemma UnusableConfiguration(nodes: Nodes)
    requires Configured(nodes, [1], [1, 3])
    ensures 3 in nodes && nodes[3].p1 == 2 && 2 !in [1, 3] && !AllSplittable([1], [1, 3])
  {
    assert NodeFor(nodes, [1], [1, 3], 3);
    assert !Splittable([1, 3], 3);
  }

  /** Configuring twice can leave a source that is not one any more: after {1, 5} and then {1},
      `source_nodes` still reports 5. */
  lemma LeftoverSource(stale: Nodes, nodes: Nodes)
    requires Configured(stale, [1, 5], [1, 5]) && stale.Keys == {1, 5}
    requires Configured(nodes, [1], [1]) && nodes.Keys == {1, 5} && KeepsOthers(stale, nodes, [1])
    ensures PowersNode(5, 0, 0, 0) in SourceNodesOf(nodes) && PowersNode(5, 0, 0, 0) !in NodesFor([1])
  {
    assert NodeFor(stale, [1, 5], [1, 5], 5) by { assert [1, 5][1] == 5; }
    assert nodes[5] == stale[5];
  }

  class PowersDag {
    var nodes: Nodes
    var configured: bool
    var targetPowers: PowerSet
    var depth: u32
    var sourceCount: u32

    constructor ()
      ensures nodes == map[] && !configured && targetPowers == [] && depth == 0 && sourceCount == 0
    {
      nodes, configured, targetPowers, depth, sourceCount := map[], false, [], 0, 0;
    }

    method Reset()
      modifies this
      ensures !configured && targetPowers == [] && depth == 0 && sourceCount == 0
      ensures nodes == old(nodes)
    {
      targetPowers, depth, sourceCount, configured := [], 0, 0, false;
    }

    method InsertSources(source: PowerSet, ghost target: PowerSet)
      requires forall s :: s in source ==> s in target
      modifies this`nodes
      ensures nodes.Keys == old(nodes).Keys + Elements(source, |source|)
      ensures SourcesIn(nodes, source) && KeepsOthers(old(nodes), nodes, target)
    {
      for i := 0 to |source|
        invariant nodes.Keys == old(nodes).Keys + Elements(source, i)
        invariant forall k :: 0 <= k < i ==> source[k] in nodes && nodes[source[k]] == PowersNode(source[k], 0, 0, 0)
        invariant KeepsOthers(old(nodes), nodes, target)
      {
        nodes := nodes[source[i] := PowersNode(source[i], 0, 0, 0)];
      }
    }

    /** The inner loop: the shallowest split of `n`, starting from the default (n-1, 1). */
    method BestParents(target: PowerSet, n: u32) returns (best: u32, s1: u32, s2: u32)
      requires n > 1 && 0 !in target && 1 in target && Covers(nodes, target, n)
      ensures ComputedNode(nodes[n := PowersNode(n, best, s1, s2)], target, n)
    {
      hide ComputedNode, Splittable, DepthVia;
      best, s1, s2 := n - 1, n - 1, 1;
      var i := 0;
      while i < |target| && target[i] < n
        invariant 0 <= i <= |target|
        invariant forall s :: SplitsAt(target, n, s) && (i < |target| ==> s < target[i]) ==>
                    best <= DepthVia(nodes, s, n - s)
        invariant best < n && s1 > 0 && s2 > 0 && s1 + s2 == n
        invariant (s1 == n - 1 && s2 == 1 && best == n - 1) ||
                  (SplitsAt(target, n, s1) && best == DepthVia(nodes, s1, s2))
      {
        var first := target[i];
        assert first in target;
        BelowNext(target, i);
        var second := n - first;
        if second in target {
          var d := DepthVia(nodes, first, second);
          if d < best {
            best, s1, s2 := d, first, second;
          }
        }
        i := i + 1;
      }
      BestIsComputedNode(nodes, target, n, best, s1, s2);
    }

    /** One round of the outer loop; `d` is the depth of the node at target[i]. */
    method ComputeNode(source: PowerSet, target: PowerSet, i: nat) returns (d: u32)
      requires 0 !in target && 1 in target && 1 in source && i < |target|
      requires SourcesIn(nodes, source) && NodesBefore(nodes, source, target, i)
      modifies this`nodes
      ensures nodes.Keys == old(nodes).Keys + {target[i]}
      ensures forall k :: k in old(nodes) && k != target[i] ==> nodes[k] == old(nodes)[k]
      ensures SourcesIn(nodes, source) && NodesBefore(nodes, source, target, i + 1)
      ensures d == nodes[target[i]].depth
    {
      var n := target[i];
      CoversNext(nodes, source, target, i);
      hide NodeFor, ComputedNode, Covers, NodesBefore;
      if n in source {
        KeepSource(nodes, source, target, i);
        return 0;
      }
      var best, s1, s2 := BestParents(target, n);
      AddNode(nodes, source, target, i, PowersNode(n, best, s1, s2));
      nodes := nodes[n := PowersNode(n, best, s1, s2)];
      return best;
    }

    /** The outer loop: computes the nodes of all targets in ascending order. */
    method ComputeNodes(source: PowerSet, target: PowerSet) returns (currDepth: u32)
      requires 0 !in target && 1 in target && 1 in source && SourcesIn(nodes, source)
      modifies this`nodes
      ensures nodes.Keys == old(nodes).Keys + Elements(target, |target|)
      ensures KeepsOthers(old(nodes), nodes, target)
      ensures NodesBefore(nodes, source, target, |target|)
      ensures DeepestBefore(nodes, target, |target|, currDepth)
    {
      hide NodesBefore, DeepestBefore, KeepsOthers, SourcesIn, NodeFor;
      currDepth := 0;
      NothingComputed(nodes, source, target);
      for i := 0 to |target|
        invariant nodes.Keys == old(nodes).Keys + Elements(target, i)
        invariant KeepsOthers(old(nodes), nodes, target)
        invariant SourcesIn(nodes, source)
        invariant NodesBefore(nodes, source, target, i)
        invariant DeepestBefore(nodes, target, i, currDepth)
      {
        ghost var before := nodes;
        var d := ComputeNode(source, target, i);
        DeepestNext(before, nodes, target, i, currDepth);
        KeepsOthersNext(old(nodes), before, nodes, target, i);
        currDepth := Max(currDepth, d);
      }
    }

    method Configure(source: PowerSet, target: PowerSet) returns (ok: bool)
      modifies this
      ensures ok <==> Acceptable(source, target)
      ensures configured == ok
      ensures !ok ==> nodes == old(nodes) && targetPowers == [] && depth == 0 && sourceCount == 0
      ensures ok ==> Configured(nodes, source, target)
      ensures ok ==> nodes.Keys == old(nodes).Keys + (set n | n in target)
      ensures ok ==> KeepsOthers(old(nodes), nodes, target)
      ensures ok ==> targetPowers == target && sourceCount == |source|
      ensures ok ==> DeepestBefore(nodes, target, |target|, depth)
    {
      hide NodesBefore, DeepestBefore, KeepsOthers, SourcesIn, Configured, Elements;
      Reset();
      if 0 in source || 1 !in source {
        return false;
      }
      if 0 in target || 1 !in target {
        return false;
      }
      if exists i :: 0 <= i < |source| && source[i] !in target {
        return false;
      }
      InsertSources(source, target);
      ghost var start := nodes;
      var currDepth := ComputeNodes(source, target);
      ConfiguredAtEnd(old(nodes), start, nodes, source, target);
      configured := true;
      targetPowers := target;
      depth := currDepth;
      AscendingLength(source);
      sourceCount := |source|;
      return true;
    }

    method SourceNodes() returns (result: Result<seq<PowersNode>>)
      ensures configured <==> result.Ok?
      ensures configured ==> (set x | x in result.value) == SourceNodesOf(nodes)
    {
      if !configured {
        return LogicError;
      }
      var found: seq<PowersNode> := [];
      var left := nodes.Keys;
      while left != {}
        invariant left <= nodes.Keys
        invariant (set x | x in found) == (set k | k in nodes.Keys - left && nodes[k].IsSource() :: nodes[k])
        decreases left
      {
        var k :| k in left;
        ghost var before := set j | j in nodes.Keys - left && nodes[j].IsSource() :: nodes[j];
        ghost var after := set j | j in nodes.Keys - (left - {k}) && nodes[j].IsSource() :: nodes[j];
        if nodes[k].IsSource() {
          assert after == before + {nodes[k]};
          found := found + [nodes[k]];
        } else {
          assert after == before;
        }
        left := left - {k};
      }
      return Ok(found);
    }
  }
}
