/** A query from end to end: the sender's source powers, the DAG, the form changes, and the reply for a bin bundle
    from its cache. Encryption and decryption are the slot vectors themselves. */
module QueryReply {
  import opened Exceptions
  import opened Interpolate
  import opened PowersDag
  import opened ParallelApply
  import opened ParallelRuns
  import opened Seal
  import opened BatchedPolyn
  import opened ResultMatching
  import BinBundle
  import PlaintextPowers
  import QueryPowers
  import Slots

  /** What the receiver starts `parallel_apply` with. */
  datatype Query = Query(graph: Graph, start: State)

  /** From the query parameters and the query itself to the initial state of the workers: both sides configure the
      same DAG, and the sender computes the powers of the source nodes. */
  method StartQuery(source: PowerSet, target: PowerSet, values: Slots.Vec, p: nat, workers: nat)
    returns (r: Result<Query>)
    requires p > 0
    ensures r.Ok? <==> Acceptable(source, target)
    ensures r.Ok? || r.InvalidArgument?
    ensures r.Ok? ==> Configured(r.value.graph.nodes, source, target)
    ensures r.Ok? ==> r.value.graph.powers == target && r.value.graph.modulus == p
    ensures r.Ok? ==> Initial(r.value.graph, r.value.start, values) && |r.value.start.workers| == workers
  {
    hide Configured, Initial, SourceNodesOf, KeepsOthers, DeepestBefore;
    var dag := new PowersDag();
    ghost var empty := dag.nodes;
    var ok := dag.Configure(source, target);
    if !ok {
      return InvalidArgument;
    }
    var found := dag.SourceNodes();
    var sourceNodes := found.Extract();
    var sources := PowersOf(sourceNodes);
    SourcesFound(empty, dag.nodes, source, target, sourceNodes);
    var sender := new PlaintextPowers.PlaintextPowers(p);
    sender.ComputePowers(values, sources);
    var graph := Graph(target, dag.nodes, p);
    var cells := map s: u32 | s in sender.powers :: sender.powers[s];
    var start := State(seq(|target|, _ => Uncomputed), seq(workers, _ => Worker(0, Scan(0))), cells, []);
    LoadedIsInitial(graph, start, source, values);
    return Ok(Query(graph, start));
  }

  function PowersOf(nodes: seq<PowersNode>): (r: seq<u32>)
    ensures |r| == |nodes| && forall i :: 0 <= i < |r| ==> r[i] == nodes[i].power
  {
    seq(|nodes|, i requires 0 <= i < |nodes| => nodes[i].power)
  }

  /** On a new DAG the source nodes are those of the source powers. */
  lemma SourcesFound(empty: Nodes, nodes: Nodes, source: PowerSet, target: PowerSet, found: seq<PowersNode>)
    requires Configured(nodes, source, target) && empty == map[]
    requires nodes.Keys == empty.Keys + (set n | n in target) && KeepsOthers(empty, nodes, target)
    requires (set x | x in found) == SourceNodesOf(nodes)
    ensures forall s :: s in PowersOf(found) <==> s in source
    ensures 0 !in source
  {
    SourceNodesExactIff(empty, nodes, source, target);
    forall s | s in source
      ensures s in PowersOf(found)
    {
      assert PowersNode(s, 0, 0, 0) in NodesFor(source);
      assert PowersNode(s, 0, 0, 0) in set x | x in found;
      var i :| 0 <= i < |found| && found[i] == PowersNode(s, 0, 0, 0);
      assert PowersOf(found)[i] == s;
    }
    forall s | s in PowersOf(found)
      ensures s in source
    {
      var i :| 0 <= i < |found| && PowersOf(found)[i] == s;
      assert found[i] in set x | x in found;
      assert found[i] in NodesFor(source);
    }
  }

  /** The state with the sender's powers loaded is the one every run starts from. */
  lemma LoadedIsInitial(graph: Graph, start: State, source: PowerSet, values: Slots.Vec)
    requires Configured(graph.nodes, source, graph.powers) && graph.modulus > 0
    requires |start.nodes| == |graph.powers| && forall i :: 0 <= i < |start.nodes| ==> start.nodes[i] == Uncomputed
    requires forall w :: 0 <= w < |start.workers| ==> start.workers[w] == Worker(0, Scan(0))
    requires start.log == []
    requires forall s :: s in source ==> s in start.cells && start.cells[s] == Slots.Power(values, s, graph.modulus)
    ensures Initial(graph, start, values)
  {
    ConfiguredGraph(graph.nodes, source, graph.powers, graph.modulus);
    forall i | 0 <= i < |graph.powers| && NodeOk(graph, i) && IsSourceAt(graph, i)
      ensures Cell(start, graph.powers[i]) == Slots.Power(values, graph.powers[i], graph.modulus)
    {
      assert graph.powers[i] in graph.powers;
      assert NodeFor(graph.nodes, source, graph.powers, graph.powers[i]);
    }
  }

  /** Every fair schedule of the workers on a started query reaches a moment at which all have returned. */
  lemma QueryEnds(q: Query, source: PowerSet, r: Run, l: nat, max: u32)
    requires Configured(q.graph.nodes, source, q.graph.powers) && Initial(q.graph, q.start, r.x)
    requires TargetsFor(q.graph.powers, l, max) && l <= max && max > 0
    requires r.g == q.graph && r.start == q.start && Fair(r) && forall t :: r.sched(t) < |r.start.workers|
    ensures Started(r) && ParallelRuns.Valid(r) && exists u :: AllReturned(At(r, u))
  {
    hide Configured, Initial, TargetsFor, Fair, AllReturned;
    QueryPowers.QueryPowersComputed(q.graph.nodes, source, q.graph.powers, r, l, max, 0);
  }

  // ---------- From the end of the run to the reply ----------

  lemma {:induction false} MaxDegreeIff(polyns: seq<seq<int>>, d: nat)
    ensures MaxDegree(polyns) <= d <==> forall b :: 0 <= b < |polyns| ==> |polyns[b]| <= d + 1
  {
    if polyns != [] {
      MaxDegreeIff(polyns[..|polyns| - 1], d);
      assert polyns == polyns[..|polyns| - 1] + [polyns[|polyns| - 1]];
    }
  }

  /** The degree of the batched polynomials is the size of the fullest bin. */
  lemma FullestBin(bins: seq<seq<int>>, p: int, n: nat, d: nat)
    requires p > 1 && |bins| <= n
    ensures |Batched(Polyns(bins, p), n)| - 1 <= d <==> forall b :: 0 <= b < |bins| ==> |bins[b]| <= d
  {
    MaxDegreeIff(Polyns(bins, p), d);
    forall b | 0 <= b < |bins|
      ensures |Polyns(bins, p)[b]| == |bins[b]| + 1
    {
      MonicShape(bins[b], p);
    }
    if forall b :: 0 <= b < |bins| ==> |bins[b]| <= d {
      assert forall b :: 0 <= b < |bins| ==> |Polyns(bins, p)[b]| <= d + 1;
    } else {
      var b :| 0 <= b < |bins| && |bins[b]| > d;
      assert |Polyns(bins, p)[b]| > d + 1;
    }
  }

  /** At whatever moment the workers have all returned, the receiver's vector holds the powers. */
  lemma PowersAtEnd(r: Run, u: nat, max: u32, first: nat)
    requires Started(r) && |r.start.workers| > 0
    requires ParallelRuns.Valid(r) && AllReturned(At(r, u))
    ensures r.g.modulus > 0
    ensures BatchedPolyn.Computed(QueryPowers.Vector(At(r, u), r.g.powers, max, first), r.g.powers, r.x, first, r.g.modulus)
  {
    SafeAtAllTimes(r, u);
    assert At(r, u).workers[0].pc.Returned?;
    QueryPowers.VectorComputed(r.g, At(r, u), r.x, max, first);
  }

  /** The reply for one bin bundle, from the state in which all workers have returned. The cache must be valid;
      there is no reply if a bin is fuller than the query has powers for or, with ps_low_degree 1, holds two
      elements. Else the reply is the masked evaluation, and a slot shows its mask exactly when the query's felt
      is in the bin. */
  method AnswerBundle(bundle: BinBundle.BinBundle, matching: BatchedPlaintextPolyn, end: State, target: PowerSet,
      max: u32, mask: Plaintext, ghost r: Run, ghost u: nat) returns (reply: Result<Ciphertext>)
    requires bundle.Valid() && !bundle.stripped
    requires !bundle.cacheInvalid ==> matching.batchedCoeffs == bundle.cache.batchedMatching
    requires Started(r) && |r.start.workers| > 0 && r.g.powers == target && r.g.modulus == bundle.params.mod.value
    requires ParallelRuns.Valid(r) && end == At(r, u) && AllReturned(end)
    requires max > 0 && TargetsFor(target, bundle.params.psLowDegree, max)
    requires |r.x| == |mask.slots| == bundle.params.slotCount && !mask.ntt
    requires Felts(r.x, bundle.params.mod.value) && Felts(mask.slots, bundle.params.mod.value)
    ensures reply.LogicError? <==> bundle.cacheInvalid
    ensures !bundle.cacheInvalid ==>
      (reply.Ok? <==> forall b :: 0 <= b < |bundle.itemBins| ==>
        |bundle.itemBins[b]| <= max && (bundle.params.psLowDegree == 1 ==> |bundle.itemBins[b]| <= 1))
    ensures reply.Ok? ==> reply.value.Ciphertext? && !reply.value.ntt && reply.value.level == 0
    ensures reply.Ok? ==> IsResult(reply.value.slots, bundle.itemBins, r.x, mask.slots, bundle.params.mod.value)
    ensures reply.Ok? ==> |reply.value.slots| == |r.x| && forall s :: 0 <= s < |r.x| ==>
      (reply.value.slots[s] == mask.slots[s] <==> FeltInBin(bundle.itemBins, r.x, s))
  {
    hide BatchedPolyn.Computed, Prepared, Encoded, Batched, TargetsFor, FeltInBin, Started, AllReturned, ParallelRuns.Valid;
    var params := bundle.params;
    var p := params.mod.value;
    var cache :- bundle.GetCache();
    var computed := QueryPowers.Vector(end, target, max, params.first);
    PowersAtEnd(r, u, max, params.first);
    AscendingDistinct(target);
    var powers := FormPowers(computed, target, params.psLowDegree, params.first, p, r.x);
    ghost var coeffs := Batched(Polyns(bundle.itemBins, p), params.slotCount);
    assert cache.matching == Polyns(bundle.itemBins, p);
    BatchedShape(Polyns(bundle.itemBins, p), params.slotCount, r.x);
    reply := ProcessBinBundleCache(matching, powers, params.psLowDegree, params.first, mask, p, coeffs, r.x);
    FullestBin(bundle.itemBins, p, params.slotCount, max);
    FullestBin(bundle.itemBins, p, params.slotCount, 1);
    if reply.Ok? {
      forall s | 0 <= s < |r.x|
        ensures reply.value.slots[s] == mask.slots[s] <==> FeltInBin(bundle.itemBins, r.x, s)
      {
        SlotRevealed(reply.value.slots, bundle.itemBins, r.x, mask.slots, p, s);
      }
    }
  }

  lemma AscendingDistinct(target: PowerSet)
    ensures forall i, j :: 0 <= i < j < |target| ==> target[i] != target[j]
  {
  }

  lemma BatchedShape(polyns: seq<seq<int>>, n: nat, x: Slots.Vec)
    requires |polyns| <= n == |x|
    ensures BatchedPolyn.Shaped(Batched(polyns, n), x)
  {
  }
}
