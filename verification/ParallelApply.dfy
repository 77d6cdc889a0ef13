/** `PowersDag::parallel_apply`: any number of workers claim the nodes of a configured DAG by
    compare-and-swap and run a function on each. A state machine whose steps are the atomic steps of
    the worker loop; the function is the one `ComputePowers` passes, which multiplies the ciphertexts
    of the two parent powers. */
module ParallelApply {
  import opened PowersDag
  import Slots

  datatype NodeState = Uncomputed | Computing | Computed

  /** Where a worker is in its loop. */
  datatype Pc =
    | Scan(next: nat)             // in all_of, about to load the state of node `next`
    | Claim                       // about to swap the node at power_idx from Uncomputed to Computing
    | ReadFirst                   // about to load the first parent's state
    | ReadSecond(first: bool)     // about to load the second parent's state
    | BackOff                     // a parent is missing: about to swap back to Uncomputed
    | Call                        // about to enter func
    | Calling(prod: Slots.Vec)    // inside func, product computed, not stored
    | Finish                      // func has returned: about to swap to Computed
    | Returned
    | Thrown                      // "PowersDag is in an invalid state"

  datatype Worker = Worker(idx: nat, pc: Pc) {
    /** The worker has swapped the node at idx to Computing and not released it. */
    predicate Holds(i: nat) {
      idx == i && (pc.ReadFirst? || pc.ReadSecond? || pc.BackOff? || pc.Call? || pc.Calling? || pc.Finish? || pc.Thrown?)
    }
  }

  /** Entering and leaving func for the node at an index. */
  datatype Event = Start(idx: nat) | End(idx: nat)

  datatype State = State(
    nodes: seq<NodeState>,
    workers: seq<Worker>,
    cells: map<u32, Slots.Vec>,   // powers_at_this_bundle_idx
    log: seq<Event>)

  /** What the workers share and never change. */
  datatype Graph = Graph(powers: PowerSet, nodes: Nodes, modulus: int)

  function Find(s: seq<u32>, x: u32): (i: nat)
    ensures i <= |s|
    ensures i < |s| <==> x in s
    ensures i < |s| ==> s[i] == x
  {
    if s == [] then 0
    else if s[0] == x then 0
    else 1 + Find(s[1..], x)
  }

  /** Every power has its node; a node that is not a source is the sum of two positive parents. */
  ghost predicate GraphOk(g: Graph) {
    && |g.powers| > 0 && g.modulus > 0
    && forall i :: 0 <= i < |g.powers| ==> NodeOk(g, i)
  }

  ghost predicate NodeOk(g: Graph, i: nat)
    requires i < |g.powers|
  {
    var n := g.powers[i];
    && n in g.nodes && g.nodes[n].power == n
    && (!g.nodes[n].IsSource() ==> g.nodes[n].p1 > 0 && g.nodes[n].p2 > 0 && g.nodes[n].p1 + g.nodes[n].p2 == n)
  }

  predicate IsSourceAt(g: Graph, i: nat)
    requires i < |g.powers| && g.powers[i] in g.nodes
  {
    g.nodes[g.powers[i]].IsSource()
  }

  function First(g: Graph, i: nat): nat
    requires i < |g.powers| && g.powers[i] in g.nodes
  {
    Find(g.powers, g.nodes[g.powers[i]].p1)
  }

  function Second(g: Graph, i: nat): nat
    requires i < |g.powers| && g.powers[i] in g.nodes
  {
    Find(g.powers, g.nodes[g.powers[i]].p2)
  }

  /** `find` locates both parents. */
  predicate ParentsFound(g: Graph, i: nat)
    requires i < |g.powers| && g.powers[i] in g.nodes
  {
    IsSourceAt(g, i) || (First(g, i) < |g.powers| && Second(g, i) < |g.powers|)
  }

  lemma ParentsPrecede(g: Graph, i: nat)
    requires GraphOk(g) && i < |g.powers|
    ensures g.powers[i] in g.nodes
    ensures !IsSourceAt(g, i) && ParentsFound(g, i) ==> First(g, i) < i && Second(g, i) < i
  {
    assert NodeOk(g, i);
    if !IsSourceAt(g, i) && ParentsFound(g, i) {
      assert g.powers[First(g, i)] < g.powers[i] && g.powers[Second(g, i)] < g.powers[i];
    }
  }

  // ---------- Steps ----------

  /** A worker whose state is in range, the well-formedness steps rely on. */
  ghost predicate Shape(g: Graph, s: State) {
    && GraphOk(g) && |s.nodes| == |g.powers|
    && forall w :: 0 <= w < |s.workers| ==> WorkerShape(g, s.workers[w])
  }

  ghost predicate WorkerShape(g: Graph, k: Worker)
    requires GraphOk(g)
  {
    && k.idx < |g.powers| && NodeOk(g, k.idx)
    && (k.pc.Scan? ==> k.pc.next < |g.powers|)
    && (k.pc.ReadFirst? || k.pc.ReadSecond? || k.pc.BackOff? ==>
          !IsSourceAt(g, k.idx) && First(g, k.idx) < |g.powers| && Second(g, k.idx) < |g.powers|)
    && (k.pc.Call? || k.pc.Calling? || k.pc.Finish? ==> ParentsFound(g, k.idx))
    && (k.pc.Thrown? ==> !ParentsFound(g, k.idx))
  }

  /** The worker at the start of its next round. */
  function Advance(g: Graph, k: Worker): Worker
    requires |g.powers| > 0
  {
    Worker((k.idx + 1) % |g.powers|, Scan(0))
  }

  function Cell(s: State, n: u32): Slots.Vec {
    if n in s.cells then s.cells[n] else []
  }

  /** What func multiplies; `square` and `multiply` agree on slots. */
  function ParentsProduct(g: Graph, s: State, i: nat): Slots.Vec
    requires g.modulus > 0 && i < |g.powers| && g.powers[i] in g.nodes
  {
    var node := g.nodes[g.powers[i]];
    var a, b := Cell(s, node.p1), Cell(s, node.p2);
    if |a| == |b| then Slots.Mul(a, b, g.modulus) else []
  }

  /** One atomic step of worker w. */
  function Step(g: Graph, s: State, w: nat): State
    requires Shape(g, s) && w < |s.workers|
  {
    var k := s.workers[w];
    match k.pc
    case Scan(j) =>
      if s.nodes[j] != Computed then s.(workers := s.workers[w := k.(pc := Claim)])
      else if j + 1 == |s.nodes| then s.(workers := s.workers[w := k.(pc := Returned)])
      else s.(workers := s.workers[w := k.(pc := Scan(j + 1))])
    case Claim =>
      if s.nodes[k.idx] != Uncomputed then s.(workers := s.workers[w := Advance(g, k)])
      else
        var pc := if IsSourceAt(g, k.idx) then Call
                  else if ParentsFound(g, k.idx) then ReadFirst else Thrown;
        s.(nodes := s.nodes[k.idx := Computing], workers := s.workers[w := k.(pc := pc)])
    case ReadFirst =>
      s.(workers := s.workers[w := k.(pc := ReadSecond(s.nodes[First(g, k.idx)] == Computed))])
    case ReadSecond(first) =>
      var ready := first && s.nodes[Second(g, k.idx)] == Computed;
      s.(workers := s.workers[w := k.(pc := if ready then Call else BackOff)])
    case BackOff =>
      s.(nodes := if s.nodes[k.idx] == Computing then s.nodes[k.idx := Uncomputed] else s.nodes,
         workers := s.workers[w := Advance(g, k)])
    case Call =>
      s.(workers := s.workers[w := k.(pc := Calling(ParentsProduct(g, s, k.idx)))], log := s.log + [Start(k.idx)])
    case Calling(prod) =>
      s.(workers := s.workers[w := k.(pc := Finish)],
         cells := if IsSourceAt(g, k.idx) then s.cells else s.cells[g.powers[k.idx] := prod],
         log := s.log + [End(k.idx)])
    case Finish =>
      s.(nodes := if s.nodes[k.idx] == Computing then s.nodes[k.idx := Computed] else s.nodes,
         workers := s.workers[w := Advance(g, k)])
    case Returned => s
    case Thrown => s
  }

  /** All nodes Uncomputed, every worker at the top of its loop, the query's source powers loaded. */
  ghost predicate Initial(g: Graph, s: State, x: Slots.Vec) {
    && GraphOk(g) && |s.nodes| == |g.powers|
    && (forall i :: 0 <= i < |s.nodes| ==> s.nodes[i] == Uncomputed)
    && (forall w :: 0 <= w < |s.workers| ==> s.workers[w] == Worker(0, Scan(0)))
    && s.log == []
    && forall i :: 0 <= i < |g.powers| && NodeOk(g, i) && IsSourceAt(g, i) ==>
         Cell(s, g.powers[i]) == Slots.Power(x, g.powers[i], g.modulus)
  }

  // ---------- Safety ----------

  ghost predicate ParentsComputed(g: Graph, s: State, i: nat)
    requires Shape(g, s) && i < |g.powers| && NodeOk(g, i)
  {
    ParentsFound(g, i) && (!IsSourceAt(g, i) ==> s.nodes[First(g, i)] == Computed && s.nodes[Second(g, i)] == Computed)
  }

  ghost predicate CellDone(g: Graph, s: State, x: Slots.Vec, i: nat)
    requires i < |g.powers| && g.modulus > 0
  {
    Cell(s, g.powers[i]) == Slots.Power(x, g.powers[i], g.modulus)
  }

  /** What a worker's place in its loop says about the rest of the state. */
  ghost predicate WorkerInv(g: Graph, s: State, x: Slots.Vec, k: Worker)
    requires Shape(g, s) && WorkerShape(g, k)
  {
    && (k.pc.Scan? ==> forall i :: 0 <= i < k.pc.next ==> s.nodes[i] == Computed)
    && (k.pc.Returned? ==> forall i :: 0 <= i < |s.nodes| ==> s.nodes[i] == Computed)
    && (k.Holds(k.idx) ==> HolderInv(g, s, x, k))
  }

  ghost predicate HolderInv(g: Graph, s: State, x: Slots.Vec, k: Worker)
    requires Shape(g, s) && WorkerShape(g, k)
  {
    && s.nodes[k.idx] == Computing
    && (Start(k.idx) in s.log <==> k.pc.Calling? || k.pc.Finish?)
    && (End(k.idx) in s.log <==> k.pc.Finish?)
    && (k.pc.ReadSecond? && k.pc.first ==> s.nodes[First(g, k.idx)] == Computed)
    && (k.pc.Call? || k.pc.Calling? || k.pc.Finish? ==> ParentsComputed(g, s, k.idx))
    && (k.pc.Calling? && !IsSourceAt(g, k.idx) ==> k.pc.prod == Slots.Power(x, g.powers[k.idx], g.modulus))
    && (k.pc.Finish? ==> CellDone(g, s, x, k.idx))
  }

  ghost predicate NodeInv(g: Graph, s: State, x: Slots.Vec, i: nat)
    requires Shape(g, s) && i < |g.powers| && NodeOk(g, i)
  {
    && (s.nodes[i] == Computed ==>
          CellDone(g, s, x, i) && ParentsComputed(g, s, i) && Start(i) in s.log && End(i) in s.log)
    && (s.nodes[i] == Uncomputed ==> Start(i) !in s.log && End(i) !in s.log)
    && (s.nodes[i] == Computing ==> exists w :: 0 <= w < |s.workers| && s.workers[w].Holds(i))
    && (IsSourceAt(g, i) ==> CellDone(g, s, x, i))
  }

  ghost predicate OneHolder(s: State) {
    forall v, w, i :: 0 <= v < |s.workers| && 0 <= w < |s.workers| && s.workers[v].Holds(i) && s.workers[w].Holds(i) ==> v == w
  }

  /** func was entered only after it had returned for both parents. */
  ghost predicate StartedAfterParents(g: Graph, log: seq<Event>, k: nat)
    requires k < |log| && log[k].Start?
  {
    var i := log[k].idx;
    i < |g.powers| && g.powers[i] in g.nodes && ParentsFound(g, i) &&
    (!IsSourceAt(g, i) ==> End(First(g, i)) in log[..k] && End(Second(g, i)) in log[..k])
  }

  ghost predicate LogInv(g: Graph, log: seq<Event>) {
    && (forall j, k :: 0 <= j < k < |log| ==> log[j] != log[k])
    && (forall k :: 0 <= k < |log| && log[k].Start? ==> StartedAfterParents(g, log, k))
    && (forall k :: 0 <= k < |log| && log[k].End? ==> Start(log[k].idx) in log[..k])
  }

  ghost predicate Inv(g: Graph, s: State, x: Slots.Vec) {
    && Shape(g, s)
    && (forall w :: 0 <= w < |s.workers| ==> WorkerInv(g, s, x, s.workers[w]))
    && (forall i :: 0 <= i < |g.powers| && NodeOk(g, i) ==> NodeInv(g, s, x, i))
    && OneHolder(s)
    && LogInv(g, s.log)
  }

  lemma InitialInv(g: Graph, s: State, x: Slots.Vec)
    requires Initial(g, s, x)
    ensures Inv(g, s, x)
  {
  }

  lemma AdvanceShape(g: Graph, k: Worker)
    requires GraphOk(g) && WorkerShape(g, k)
    ensures WorkerShape(g, Advance(g, k)) && Advance(g, k).pc == Scan(0)
  {
    var n := (k.idx + 1) % |g.powers|;
    assert n < |g.powers| && NodeOk(g, n);
  }

  lemma StepWorkerShape(g: Graph, s: State, w: nat)
    requires Shape(g, s) && w < |s.workers|
    ensures |Step(g, s, w).workers| == |s.workers| && |Step(g, s, w).nodes| == |s.nodes|
    ensures WorkerShape(g, Step(g, s, w).workers[w])
  {
    hide Advance, Find, ParentsProduct, NodeOk, GraphOk;
    assert WorkerShape(g, s.workers[w]);
    AdvanceShape(g, s.workers[w]);
  }

  lemma StepShape(g: Graph, s: State, w: nat)
    requires Shape(g, s) && w < |s.workers|
    ensures Shape(g, Step(g, s, w)) && |Step(g, s, w).workers| == |s.workers|
    ensures forall v :: 0 <= v < |s.workers| && v != w ==> Step(g, s, w).workers[v] == s.workers[v]
  {
    hide WorkerShape;
    StepWorkerShape(g, s, w);
  }

  /** The step from s to t of worker w wrote at most node i, its cell, and log entries about i. */
  ghost predicate Touches(g: Graph, s: State, t: State, w: nat, i: nat) {
    && Shape(g, s) && Shape(g, t) && i < |g.powers|
    && |t.workers| == |s.workers| && w < |s.workers|
    && (forall v :: 0 <= v < |s.workers| && v != w ==> t.workers[v] == s.workers[v])
    && (forall j :: 0 <= j < |s.nodes| && j != i ==> t.nodes[j] == s.nodes[j])
    && (s.nodes[i] == Computed ==> t.nodes[i] == Computed)
    && (forall n :: n != g.powers[i] ==> Cell(t, n) == Cell(s, n))
    && |s.log| <= |t.log| <= |s.log| + 1 && t.log[..|s.log|] == s.log
    && (|t.log| > |s.log| ==> t.log[|s.log|].idx == i)
  }

  lemma TouchesLog(g: Graph, s: State, t: State, w: nat, i: nat)
    requires Touches(g, s, t, w, i)
    ensures forall e: Event :: e.idx != i ==> (e in t.log <==> e in s.log)
  {
    assert t.log == s.log + t.log[|s.log|..];
  }

  lemma ParentsKeep(g: Graph, s: State, t: State, w: nat, i: nat, j: nat)
    requires Touches(g, s, t, w, i) && j < |g.powers| && NodeOk(g, j) && ParentsComputed(g, s, j)
    ensures ParentsComputed(g, t, j)
  {
  }

  lemma OtherWorkerKeeps(g: Graph, s: State, t: State, x: Slots.Vec, w: nat, i: nat, v: nat)
    requires Inv(g, s, x) && Touches(g, s, t, w, i)
    requires v < |s.workers| && v != w && !s.workers[v].Holds(i)
    ensures WorkerInv(g, t, x, t.workers[v])
  {
    var k := s.workers[v];
    assert WorkerShape(g, k) && WorkerInv(g, s, x, k);
    if k.Holds(k.idx) {
      TouchesLog(g, s, t, w, i);
      assert NodeOk(g, k.idx);
      assert g.powers[k.idx] != g.powers[i];
      if k.pc.Call? || k.pc.Calling? || k.pc.Finish? {
        ParentsKeep(g, s, t, w, i, k.idx);
      }
      assert HolderInv(g, t, x, k);
    }
  }

  lemma OtherNodeKeeps(g: Graph, s: State, t: State, x: Slots.Vec, w: nat, i: nat, j: nat)
    requires Inv(g, s, x) && Touches(g, s, t, w, i) && s.workers[w].idx == i
    requires j < |g.powers| && j != i && NodeOk(g, j)
    ensures NodeInv(g, t, x, j)
  {
    TouchesLog(g, s, t, w, i);
    assert NodeInv(g, s, x, j);
    assert g.powers[j] != g.powers[i];
    if s.nodes[j] == Computed {
      ParentsKeep(g, s, t, w, i, j);
    }
    if s.nodes[j] == Computing {
      var v :| 0 <= v < |s.workers| && s.workers[v].Holds(j);
      assert v != w && t.workers[v].Holds(j);
    }
  }

  /** A step of w that touches only node i, which no other worker holds, keeps the invariant if it
      keeps it for w, for i and for the log. */
  lemma Assemble(g: Graph, s: State, t: State, x: Slots.Vec, w: nat, i: nat)
    requires Inv(g, s, x) && Touches(g, s, t, w, i) && s.workers[w].idx == i
    requires forall v :: 0 <= v < |s.workers| && v != w ==> !s.workers[v].Holds(i)
    requires WorkerInv(g, t, x, t.workers[w]) && NodeOk(g, i) && NodeInv(g, t, x, i) && LogInv(g, t.log)
    requires t.workers[w].Holds(t.workers[w].idx) ==> t.workers[w].idx == i
    ensures Inv(g, t, x)
  {
    forall v | 0 <= v < |t.workers| ensures WorkerInv(g, t, x, t.workers[v]) {
      if v != w {
        OtherWorkerKeeps(g, s, t, x, w, i, v);
      }
    }
    forall j | 0 <= j < |g.powers| && NodeOk(g, j) ensures NodeInv(g, t, x, j) {
      if j != i {
        OtherNodeKeeps(g, s, t, x, w, i, j);
      }
    }
    forall u, v, j | 0 <= u < |t.workers| && 0 <= v < |t.workers| && t.workers[u].Holds(j) && t.workers[v].Holds(j)
      ensures u == v
    {
      if u != w && v != w {
        assert s.workers[u].Holds(j) && s.workers[v].Holds(j);
      }
    }
  }

  lemma IdleWorkerKeeps(g: Graph, s: State, x: Slots.Vec, w: nat, k: Worker, v: nat)
    requires Inv(g, s, x) && w < |s.workers| && WorkerShape(g, k) && Shape(g, s.(workers := s.workers[w := k]))
    requires v < |s.workers| && v != w
    ensures WorkerInv(g, s.(workers := s.workers[w := k]), x, s.workers[v])
  {
    hide NodeInv, LogInv, OneHolder;
    var kv, t := s.workers[v], s.(workers := s.workers[w := k]);
    assert WorkerShape(g, kv) && WorkerInv(g, s, x, kv);
    if kv.Holds(kv.idx) {
      assert HolderInv(g, t, x, kv);
    }
  }

  lemma IdleNodeKeeps(g: Graph, s: State, x: Slots.Vec, w: nat, k: Worker, j: nat)
    requires Inv(g, s, x) && w < |s.workers| && WorkerShape(g, k) && Shape(g, s.(workers := s.workers[w := k]))
    requires !s.workers[w].Holds(s.workers[w].idx) && j < |g.powers| && NodeOk(g, j)
    ensures NodeInv(g, s.(workers := s.workers[w := k]), x, j)
  {
    hide WorkerInv, LogInv, OneHolder;
    var t := s.(workers := s.workers[w := k]);
    assert NodeInv(g, s, x, j);
    if s.nodes[j] == Computing {
      var v :| 0 <= v < |s.workers| && s.workers[v].Holds(j);
      assert t.workers[v].Holds(j);
    }
    if s.nodes[j] == Computed {
      assert ParentsComputed(g, t, j);
    }
    assert CellDone(g, s, x, j) ==> CellDone(g, t, x, j);
  }

  /** A step that only moves a worker that holds nothing, before or after. */
  lemma AssembleIdle(g: Graph, s: State, x: Slots.Vec, w: nat, k: Worker)
    requires Inv(g, s, x) && w < |s.workers| && WorkerShape(g, k) && WorkerInv(g, s, x, k)
    requires !s.workers[w].Holds(s.workers[w].idx) && !k.Holds(k.idx)
    ensures Inv(g, s.(workers := s.workers[w := k]), x)
  {
    hide WorkerShape, HolderInv, NodeInv, LogInv, NodeOk;
    var t := s.(workers := s.workers[w := k]);
    assert Shape(g, t);
    forall v | 0 <= v < |t.workers| ensures WorkerInv(g, t, x, t.workers[v]) {
      if v != w {
        IdleWorkerKeeps(g, s, x, w, k, v);
      }
    }
    forall j | 0 <= j < |g.powers| && NodeOk(g, j) ensures NodeInv(g, t, x, j) {
      IdleNodeKeeps(g, s, x, w, k, j);
    }
    forall u, v, j | 0 <= u < |t.workers| && 0 <= v < |t.workers| && t.workers[u].Holds(j) && t.workers[v].Holds(j)
      ensures u == v
    {
      assert s.workers[u].Holds(j) && s.workers[v].Holds(j);
    }
  }

  lemma StepScan(g: Graph, s: State, x: Slots.Vec, w: nat)
    requires Inv(g, s, x) && w < |s.workers| && s.workers[w].pc.Scan?
    ensures Inv(g, Step(g, s, w), x)
  {
    hide NodeInv, LogInv, OneHolder, HolderInv, NodeOk, GraphOk, IsSourceAt, ParentsFound, First, Second;
    var k := s.workers[w];
    assert WorkerShape(g, k) && WorkerInv(g, s, x, k);
    StepWorkerShape(g, s, w);
    AssembleIdle(g, s, x, w, Step(g, s, w).workers[w]);
  }

  lemma StepClaimFails(g: Graph, s: State, x: Slots.Vec, w: nat)
    requires Inv(g, s, x) && w < |s.workers| && s.workers[w].pc.Claim?
    requires s.nodes[s.workers[w].idx] != Uncomputed
    ensures Inv(g, Step(g, s, w), x)
  {
    hide NodeInv, LogInv, OneHolder, HolderInv, NodeOk, GraphOk, IsSourceAt, ParentsFound, First, Second, Advance;
    assert WorkerShape(g, s.workers[w]);
    AdvanceShape(g, s.workers[w]);
    AssembleIdle(g, s, x, w, Advance(g, s.workers[w]));
  }

  /** A node that is Uncomputed, or that w holds, is held by no other worker. */
  lemma NoOtherHolder(g: Graph, s: State, x: Slots.Vec, w: nat, i: nat)
    requires Inv(g, s, x) && w < |s.workers| && i < |g.powers|
    requires s.nodes[i] == Uncomputed || s.workers[w].Holds(i)
    ensures forall v :: 0 <= v < |s.workers| && v != w ==> !s.workers[v].Holds(i)
  {
    forall v | 0 <= v < |s.workers| && v != w ensures !s.workers[v].Holds(i) {
      assert WorkerShape(g, s.workers[v]) && WorkerInv(g, s, x, s.workers[v]);
    }
  }

  lemma StepClaimSucceeds(g: Graph, s: State, x: Slots.Vec, w: nat)
    requires Inv(g, s, x) && w < |s.workers| && s.workers[w].pc.Claim?
    requires s.nodes[s.workers[w].idx] == Uncomputed
    ensures Inv(g, Step(g, s, w), x)
  {
    hide LogInv, OneHolder, Find;
    var k, t := s.workers[w], Step(g, s, w);
    var i := k.idx;
    StepShape(g, s, w);
    assert WorkerShape(g, k) && NodeInv(g, s, x, i);
    NoOtherHolder(g, s, x, w, i);
    assert t.workers[w].Holds(i);
    assert ParentsComputed(g, s, i) || !IsSourceAt(g, i);
    assert Touches(g, s, t, w, i);
    assert HolderInv(g, t, x, t.workers[w]);
    assert NodeInv(g, t, x, i);
    Assemble(g, s, t, x, w, i);
  }

  lemma HolderTouches(g: Graph, s: State, w: nat)
    requires Shape(g, s) && w < |s.workers| && s.workers[w].Holds(s.workers[w].idx)
    requires s.workers[w].idx < |s.nodes| && s.nodes[s.workers[w].idx] == Computing
    ensures Touches(g, s, Step(g, s, w), w, s.workers[w].idx)
  {
    hide Find, ParentsProduct, Advance, GraphOk, WorkerShape;
    StepShape(g, s, w);
    assert WorkerShape(g, s.workers[w]);
  }

  lemma StepReads(g: Graph, s: State, x: Slots.Vec, w: nat)
    requires Inv(g, s, x) && w < |s.workers| && (s.workers[w].pc.ReadFirst? || s.workers[w].pc.ReadSecond?)
    ensures Inv(g, Step(g, s, w), x)
  {
    hide LogInv, OneHolder, Find, Touches;
    var k, t := s.workers[w], Step(g, s, w);
    var i := k.idx;
    StepShape(g, s, w);
    assert WorkerShape(g, k) && WorkerInv(g, s, x, k) && NodeInv(g, s, x, i) && HolderInv(g, s, x, k);
    NoOtherHolder(g, s, x, w, i);
    assert t.workers[w].Holds(i);
    HolderTouches(g, s, w);
    assert HolderInv(g, t, x, t.workers[w]);
    assert NodeInv(g, t, x, i);
    Assemble(g, s, t, x, w, i);
  }

  lemma StepReleases(g: Graph, s: State, x: Slots.Vec, w: nat)
    requires Inv(g, s, x) && w < |s.workers| && (s.workers[w].pc.BackOff? || s.workers[w].pc.Finish?)
    ensures Inv(g, Step(g, s, w), x)
  {
    hide LogInv, OneHolder, Find, Advance, Touches;
    var k, t := s.workers[w], Step(g, s, w);
    var i := k.idx;
    StepShape(g, s, w);
    assert WorkerShape(g, k) && WorkerInv(g, s, x, k) && NodeInv(g, s, x, i) && HolderInv(g, s, x, k);
    AdvanceShape(g, k);
    NoOtherHolder(g, s, x, w, i);
    HolderTouches(g, s, w);
    if k.pc.Finish? {
      ParentsKeep(g, s, t, w, i, i);
    }
    assert NodeInv(g, t, x, i);
    Assemble(g, s, t, x, w, i);
  }

  lemma LogAppend(g: Graph, log: seq<Event>, e: Event)
    requires LogInv(g, log) && e !in log
    requires e.Start? ==> StartedAfterParents(g, log + [e], |log|)
    requires e.End? ==> Start(e.idx) in log
    ensures LogInv(g, log + [e])
  {
    var l := log + [e];
    forall k | 0 <= k < |l| && l[k].Start? ensures StartedAfterParents(g, l, k) {
      if k < |log| {
        assert StartedAfterParents(g, log, k) && l[..k] == log[..k];
      }
    }
    forall k | 0 <= k < |l| && l[k].End? ensures Start(l[k].idx) in l[..k] {
      if k < |log| {
        assert l[..k] == log[..k];
      } else {
        assert l[..k] == log;
      }
    }
  }

  /** The product func forms from two Computed parents is the power of the node. */
  lemma ProductIsPower(g: Graph, s: State, x: Slots.Vec, i: nat)
    requires Inv(g, s, x) && i < |g.powers| && NodeOk(g, i) && ParentsComputed(g, s, i) && !IsSourceAt(g, i)
    ensures ParentsProduct(g, s, i) == Slots.Power(x, g.powers[i], g.modulus)
  {
    hide WorkerInv, LogInv, OneHolder, Find;
    var node := g.nodes[g.powers[i]];
    var a, b := First(g, i), Second(g, i);
    assert NodeOk(g, a) && NodeOk(g, b);
    assert NodeInv(g, s, x, a) && NodeInv(g, s, x, b);
    assert CellDone(g, s, x, a) && CellDone(g, s, x, b);
    Slots.PowerAdd(x, node.p1, node.p2, g.modulus);
  }

  lemma CallHolder(g: Graph, s: State, x: Slots.Vec, w: nat)
    requires Inv(g, s, x) && w < |s.workers| && s.workers[w].pc.Call?
    requires WorkerShape(g, s.workers[w]) && HolderInv(g, s, x, s.workers[w])
    requires Shape(g, Step(g, s, w)) && WorkerShape(g, Step(g, s, w).workers[w])
    ensures HolderInv(g, Step(g, s, w), x, Step(g, s, w).workers[w])
  {
    hide NodeInv, WorkerInv, OneHolder, LogInv, Find, ParentsProduct, GraphOk;
    if !IsSourceAt(g, s.workers[w].idx) {
      ProductIsPower(g, s, x, s.workers[w].idx);
    }
  }

  lemma StepCall(g: Graph, s: State, x: Slots.Vec, w: nat)
    requires Inv(g, s, x) && w < |s.workers| && s.workers[w].pc.Call?
    ensures Inv(g, Step(g, s, w), x)
  {
    hide OneHolder, Find, ParentsProduct, StartedAfterParents, LogInv, Touches, GraphOk;
    var k, t := s.workers[w], Step(g, s, w);
    var i := k.idx;
    StepShape(g, s, w);
    assert WorkerShape(g, k) && WorkerInv(g, s, x, k) && NodeInv(g, s, x, i) && HolderInv(g, s, x, k);
    NoOtherHolder(g, s, x, w, i);
    assert t.workers[w].Holds(i);
    HolderTouches(g, s, w);
    StartIsJustified(g, s, x, i);
    LogAppend(g, s.log, Start(i));
    CallHolder(g, s, x, w);
    assert NodeInv(g, t, x, i);
    Assemble(g, s, t, x, w, i);
  }

  lemma StartIsJustified(g: Graph, s: State, x: Slots.Vec, i: nat)
    requires Inv(g, s, x) && i < |g.powers| && NodeOk(g, i) && ParentsComputed(g, s, i)
    ensures StartedAfterParents(g, s.log + [Start(i)], |s.log|)
  {
    assert (s.log + [Start(i)])[..|s.log|] == s.log;
    if !IsSourceAt(g, i) {
      assert NodeOk(g, First(g, i)) && NodeOk(g, Second(g, i));
      assert NodeInv(g, s, x, First(g, i)) && NodeInv(g, s, x, Second(g, i));
    }
  }

  lemma StepCalling(g: Graph, s: State, x: Slots.Vec, w: nat)
    requires Inv(g, s, x) && w < |s.workers| && s.workers[w].pc.Calling?
    ensures Inv(g, Step(g, s, w), x)
  {
    hide OneHolder, Find, ParentsProduct, StartedAfterParents, LogInv, Touches;
    var k, t := s.workers[w], Step(g, s, w);
    var i := k.idx;
    StepShape(g, s, w);
    assert WorkerShape(g, k) && WorkerInv(g, s, x, k) && NodeInv(g, s, x, i) && HolderInv(g, s, x, k);
    NoOtherHolder(g, s, x, w, i);
    assert t.workers[w].Holds(i);
    HolderTouches(g, s, w);
    ParentsKeep(g, s, t, w, i, i);
    LogAppend(g, s.log, End(i));
    assert CellDone(g, t, x, i);
    assert HolderInv(g, t, x, t.workers[w]);
    assert NodeInv(g, t, x, i);
    Assemble(g, s, t, x, w, i);
  }

  /** Every step of every worker keeps the invariant. */
  lemma StepInv(g: Graph, s: State, x: Slots.Vec, w: nat)
    requires Inv(g, s, x) && w < |s.workers|
    ensures Inv(g, Step(g, s, w), x)
  {
    match s.workers[w].pc
    case Scan(_) => StepScan(g, s, x, w);
    case Claim =>
      if s.nodes[s.workers[w].idx] != Uncomputed { StepClaimFails(g, s, x, w); } else { StepClaimSucceeds(g, s, x, w); }
    case ReadFirst => StepReads(g, s, x, w);
    case ReadSecond(_) => StepReads(g, s, x, w);
    case BackOff => StepReleases(g, s, x, w);
    case Call => StepCall(g, s, x, w);
    case Calling(_) => StepCalling(g, s, x, w);
    case Finish => StepReleases(g, s, x, w);
    case Returned =>
    case Thrown =>
  }
}
