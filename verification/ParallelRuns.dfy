/** Whole runs of `parallel_apply`: what holds at every moment of every interleaving, and that every
    fair interleaving ends, with every power computed, exactly when the DAG is usable. */
module ParallelRuns {
  import opened ModArith
  import opened PowersDag
  import opened ParallelApply
  import Slots

  /** A run: at time t, worker sched(t) takes its next step. */
  datatype Run = Run(g: Graph, start: State, x: Slots.Vec, sched: nat -> nat)

  ghost predicate Valid(r: Run) {
    Inv(r.g, r.start, r.x) && forall t :: r.sched(t) < |r.start.workers|
  }

  ghost function At(r: Run, t: nat): (s: State)
    requires Valid(r)
    ensures Inv(r.g, s, r.x) && Shape(r.g, s)
    ensures |s.workers| == |r.start.workers| && |s.nodes| == |r.g.powers|
  {
    if t == 0 then r.start
    else
      var s := At(r, t - 1);
      StepInv(r.g, s, r.x, r.sched(t - 1));
      StepShape(r.g, s, r.sched(t - 1));
      Step(r.g, s, r.sched(t - 1))
  }

  lemma AtNext(r: Run, t: nat)
    requires Valid(r)
    ensures r.sched(t) < |r.start.workers| && At(r, t + 1) == Step(r.g, At(r, t), r.sched(t))
  {
  }

  /** A run of the workers from the state `parallel_apply` creates, on a query x. */
  ghost predicate Started(r: Run) {
    Initial(r.g, r.start, r.x) && forall t :: r.sched(t) < |r.start.workers|
  }

  lemma StartedIsValid(r: Run)
    requires Started(r)
    ensures Valid(r)
  {
    InitialInv(r.g, r.start, r.x);
  }

  /** `find` succeeds for every node. */
  ghost predicate Usable(g: Graph) {
    forall i :: 0 <= i < |g.powers| ==> g.powers[i] in g.nodes && ParentsFound(g, i)
  }

  ghost predicate AllReturned(s: State) {
    forall w :: 0 <= w < |s.workers| ==> s.workers[w].pc.Returned?
  }

  /** Everything is computed: func was entered and left once per node, and every cell holds its
      power of the query. */
  ghost predicate Complete(g: Graph, s: State, x: Slots.Vec)
    requires g.modulus > 0
  {
    forall i :: 0 <= i < |g.powers| ==>
      Start(i) in s.log && End(i) in s.log && CellDone(g, s, x, i)
  }

  /** At every moment of every interleaving: func has been entered at most once and left at most once
      per node, and entered only after it was left for both parents; and once any worker has returned
      everything is computed. */
  lemma SafeAtAllTimes(r: Run, t: nat)
    requires Started(r)
    ensures Valid(r)
    ensures LogInv(r.g, At(r, t).log)
    ensures forall w :: 0 <= w < |At(r, t).workers| && At(r, t).workers[w].pc.Returned? ==>
              Complete(r.g, At(r, t), r.x)
  {
    StartedIsValid(r);
    var s := At(r, t);
    forall w | 0 <= w < |s.workers| && s.workers[w].pc.Returned? ensures Complete(r.g, s, r.x) {
      assert WorkerInv(r.g, s, r.x, s.workers[w]);
      forall i | 0 <= i < |r.g.powers|
        ensures Start(i) in s.log && End(i) in s.log && CellDone(r.g, s, r.x, i)
      {
        assert NodeOk(r.g, i) && NodeInv(r.g, s, r.x, i);
      }
    }
  }

  /** On a usable DAG no worker throws; on any other DAG no worker ever returns normally. */
  lemma ThrowsOrReturns(r: Run, t: nat, w: nat)
    requires Started(r) && w < |r.start.workers|
    ensures Valid(r)
    ensures Usable(r.g) ==> !At(r, t).workers[w].pc.Thrown?
    ensures !Usable(r.g) ==> !At(r, t).workers[w].pc.Returned?
  {
    StartedIsValid(r);
    var s := At(r, t);
    assert WorkerShape(r.g, s.workers[w]) && WorkerInv(r.g, s, r.x, s.workers[w]);
    if i :| 0 <= i < |r.g.powers| && !(r.g.powers[i] in r.g.nodes && ParentsFound(r.g, i)) {
      assert NodeOk(r.g, i) && NodeInv(r.g, s, r.x, i);
    }
  }

  // ---------- Fair runs end ----------

  ghost predicate Scheduled(r: Run, w: nat, t: nat, u: nat) {
    t <= u && r.sched(u) == w
  }

  ghost predicate ScheduledAfter(r: Run, w: nat, t: nat) {
    exists u: nat :: Scheduled(r, w, t, u)
  }

  /** Every worker is scheduled again and again. */
  ghost predicate Fair(r: Run) {
    |r.start.workers| > 0 && forall w, t :: 0 <= w < |r.start.workers| ==> ScheduledAfter(r, w, t)
  }

  lemma NextTurn(r: Run, w: nat, t: nat) returns (u: nat)
    requires Fair(r) && w < |r.start.workers|
    ensures t <= u && r.sched(u) == w && forall k :: t <= k < u ==> r.sched(k) != w
  {
    assert ScheduledAfter(r, w, t);
    var last: nat :| Scheduled(r, w, t, last);
    u := t;
    while r.sched(u) != w
      invariant t <= u <= last && forall k :: t <= k < u ==> r.sched(k) != w
      decreases last - u
    {
      u := u + 1;
    }
  }

  lemma {:induction false} WorkerWaits(r: Run, w: nat, t: nat, u: nat)
    requires Valid(r) && w < |r.start.workers| && t <= u && forall k :: t <= k < u ==> r.sched(k) != w
    ensures At(r, u).workers[w] == At(r, t).workers[w]
  {
    hide *;
    if t < u {
      WorkerWaits(r, w, t, u - 1);
      AtNext(r, u - 1);
      StepShape(r.g, At(r, u - 1), r.sched(u - 1));
    }
  }

  lemma StepKeepsComputed(g: Graph, s: State, w: nat, i: nat)
    requires Shape(g, s) && w < |s.workers| && i < |s.nodes| && s.nodes[i] == Computed
    ensures |Step(g, s, w).nodes| == |s.nodes| && Step(g, s, w).nodes[i] == Computed
  {
    hide Find, GraphOk, NodeOk, ParentsProduct, Advance;
    assert WorkerShape(g, s.workers[w]);
  }

  lemma {:induction false} ComputedStays(r: Run, i: nat, t: nat, u: nat)
    requires Valid(r) && t <= u && i < |r.g.powers| && At(r, t).nodes[i] == Computed
    ensures At(r, u).nodes[i] == Computed
  {
    hide *;
    if t < u {
      ComputedStays(r, i, t, u - 1);
      AtNext(r, u - 1);
      StepKeepsComputed(r.g, At(r, u - 1), r.sched(u - 1), i);
    }
  }

  /** Node m's parents are Computed. */
  ghost predicate Ready(g: Graph, s: State, m: nat) {
    Shape(g, s) && m < |g.powers| && NodeOk(g, m) && ParentsComputed(g, s, m)
  }

  lemma ReadyStays(r: Run, m: nat, t: nat, u: nat)
    requires Valid(r) && t <= u && Ready(r.g, At(r, t), m)
    ensures Ready(r.g, At(r, u), m)
  {
    hide At, Inv, Valid, Find;
    if !IsSourceAt(r.g, m) {
      ComputedStays(r, First(r.g, m), t, u);
      ComputedStays(r, Second(r.g, m), t, u);
    }
  }

  /** Whoever holds m will go on to run func on it. */
  ghost predicate Committed(s: State, m: nat) {
    forall w :: 0 <= w < |s.workers| && s.workers[w].Holds(m) ==> WillFinish(s.workers[w].pc)
  }

  ghost predicate WillFinish(pc: Pc) {
    pc.ReadFirst? || (pc.ReadSecond? && pc.first) || pc.Call? || pc.Calling? || pc.Finish?
  }

  lemma CommittedStep(g: Graph, s: State, x: Slots.Vec, w: nat, m: nat)
    requires Inv(g, s, x) && w < |s.workers| && Ready(g, s, m) && Committed(s, m)
    ensures Shape(g, Step(g, s, w)) && Committed(Step(g, s, w), m)
  {
    hide Find, NodeInv, LogInv, OneHolder, WorkerInv;
    StepShape(g, s, w);
    var t := Step(g, s, w);
    assert WorkerShape(g, s.workers[w]);
    forall v | 0 <= v < |t.workers| && t.workers[v].Holds(m) ensures WillFinish(t.workers[v].pc) {
      if v != w {
        assert s.workers[v].Holds(m);
      }
    }
  }

  lemma {:induction false} CommittedStays(r: Run, m: nat, t: nat, u: nat)
    requires Valid(r) && t <= u && Ready(r.g, At(r, t), m) && Committed(At(r, t), m)
    ensures Ready(r.g, At(r, u), m) && Committed(At(r, u), m)
  {
    hide *;
    ReadyStays(r, m, t, u);
    if t < u {
      ReadyStays(r, m, t, u - 1);
      CommittedStays(r, m, t, u - 1);
      AtNext(r, u - 1);
      CommittedStep(r.g, At(r, u - 1), r.x, r.sched(u - 1), m);
    }
  }

  /** Steps a holder that will finish still has to take. */
  ghost function Remaining(pc: Pc): nat {
    if pc.ReadFirst? then 5 else if pc.ReadSecond? then 4 else if pc.Call? then 3
    else if pc.Calling? then 2 else if pc.Finish? then 1 else 0
  }

  lemma HolderStep(g: Graph, s: State, x: Slots.Vec, h: nat, m: nat)
    requires Inv(g, s, x) && h < |s.workers| && s.workers[h].Holds(m)
    requires m < |s.nodes| && Ready(g, s, m) && WillFinish(s.workers[h].pc)
    ensures |Step(g, s, h).workers| == |s.workers| && |Step(g, s, h).nodes| == |s.nodes|
    ensures Step(g, s, h).nodes[m] == Computed ||
            (Step(g, s, h).workers[h].Holds(m) && WillFinish(Step(g, s, h).workers[h].pc)
             && Remaining(Step(g, s, h).workers[h].pc) < Remaining(s.workers[h].pc))
  {
    hide Find, NodeInv, LogInv, OneHolder, ParentsProduct;
    assert WorkerShape(g, s.workers[h]) && WorkerInv(g, s, x, s.workers[h]);
  }

  lemma {:induction false} HolderFinishes(r: Run, m: nat, h: nat, t: nat) returns (u: nat)
    requires Valid(r) && Fair(r) && h < |r.start.workers|
    requires m < |r.g.powers| && Ready(r.g, At(r, t), m)
    requires At(r, t).workers[h].Holds(m) && WillFinish(At(r, t).workers[h].pc)
    ensures t <= u && At(r, u).nodes[m] == Computed
    decreases Remaining(At(r, t).workers[h].pc)
  {
    hide *;
    var v := NextTurn(r, h, t);
    WorkerWaits(r, h, t, v);
    ReadyStays(r, m, t, v);
    HolderStep(r.g, At(r, v), r.x, h, m);
    AtNext(r, v);
    if At(r, v + 1).nodes[m] == Computed {
      u := v + 1;
    } else {
      ReadyStays(r, m, v, v + 1);
      u := HolderFinishes(r, m, h, v + 1);
    }
  }

  lemma NotHeldIsCommitted(r: Run, m: nat, t: nat)
    requires Valid(r) && m < |r.g.powers| && At(r, t).nodes[m] != Computing
    ensures Committed(At(r, t), m)
  {
    hide At, Valid, NodeInv, LogInv, OneHolder;
    var s := At(r, t);
    forall w | 0 <= w < |s.workers| ensures !s.workers[w].Holds(m) {
      assert WorkerShape(r.g, s.workers[w]) && WorkerInv(r.g, s, r.x, s.workers[w]);
    }
  }

  lemma StepBack(g: Graph, s: State, x: Slots.Vec, h: nat)
    requires Inv(g, s, x) && h < |s.workers|
    requires s.workers[h].pc == BackOff || s.workers[h].pc == ReadSecond(false)
    ensures |Step(g, s, h).workers| == |s.workers| && |Step(g, s, h).nodes| == |s.nodes|
    ensures s.workers[h].idx < |s.nodes|
    ensures s.workers[h].pc == BackOff ==> Step(g, s, h).nodes[s.workers[h].idx] == Uncomputed
    ensures s.workers[h].pc == ReadSecond(false) ==> Step(g, s, h).workers[h] == s.workers[h].(pc := BackOff)
  {
    hide Find, NodeInv, LogInv, OneHolder, ParentsProduct, Advance;
    assert WorkerShape(g, s.workers[h]) && WorkerInv(g, s, x, s.workers[h]);
  }

  /** A holder that read a parent too early backs off, and from then on holders are committed. */
  lemma {:induction false} HolderBacksOff(r: Run, m: nat, h: nat, t: nat) returns (u: nat)
    requires Valid(r) && Fair(r) && h < |r.start.workers| && m < |r.g.powers|
    requires At(r, t).workers[h].idx == m
    requires At(r, t).workers[h].pc == BackOff || At(r, t).workers[h].pc == ReadSecond(false)
    ensures t <= u && Committed(At(r, u), m)
    decreases if At(r, t).workers[h].pc == BackOff then 0 else 1
  {
    hide *;
    var v := NextTurn(r, h, t);
    WorkerWaits(r, h, t, v);
    StepBack(r.g, At(r, v), r.x, h);
    AtNext(r, v);
    if At(r, t).workers[h].pc == BackOff {
      NotHeldIsCommitted(r, m, v + 1);
      u := v + 1;
    } else {
      u := HolderBacksOff(r, m, h, v + 1);
    }
  }

  lemma BecomesCommitted(r: Run, m: nat, t: nat) returns (u: nat)
    requires Valid(r) && Fair(r) && Ready(r.g, At(r, t), m)
    ensures t <= u && Committed(At(r, u), m)
  {
    hide At, Valid, NodeInv, LogInv, OneHolder, WorkerInv, Find;
    var s := At(r, t);
    if w :| 0 <= w < |s.workers| && s.workers[w].Holds(m) && !WillFinish(s.workers[w].pc) {
      assert WorkerShape(r.g, s.workers[w]);
      u := HolderBacksOff(r, m, w, t);
    } else {
      u := t;
    }
  }

  /** How far a cycling worker is from node m, and from the end of its round. */
  ghost function Distance(n: nat, idx: nat, m: nat): int {
    if idx <= m then m - idx else m + n - idx
  }

  ghost function RoundLeft(n: nat, pc: Pc): int {
    match pc
    case Scan(j) => 10 + n - j
    case Claim => 9
    case ReadFirst => 8
    case ReadSecond(_) => 7
    case BackOff => 6
    case Call => 5
    case Calling(_) => 4
    case Finish => 3
    case Returned => 0
    case Thrown => 0
  }

  ghost predicate Closer(n: nat, m: nat, k: Worker, k': Worker) {
    || Distance(n, k'.idx, m) < Distance(n, k.idx, m)
    || (k'.idx == k.idx && RoundLeft(n, k'.pc) < RoundLeft(n, k.pc))
  }

  lemma AdvanceCloser(g: Graph, m: nat, k: Worker)
    requires |g.powers| > 0 && k.idx < |g.powers| && m < |g.powers| && k.idx != m
    ensures Closer(|g.powers|, m, k, Advance(g, k)) && Advance(g, k).idx < |g.powers|
  {
    if k.idx + 1 < |g.powers| {
      DivModUnique(k.idx + 1, 0, k.idx + 1, |g.powers|);
    } else {
      DivModUnique(k.idx + 1, 1, 0, |g.powers|);
    }
  }

  /** A worker away from a node that is not Computed gets closer to it with every step. */
  lemma CycleStep(g: Graph, s: State, x: Slots.Vec, w: nat, m: nat)
    requires Inv(g, s, x) && Usable(g) && w < |s.workers| && m < |g.powers| && |s.nodes| == |g.powers|
    requires s.nodes[m] == Uncomputed
    requires s.workers[w].pc.Claim? ==> s.workers[w].idx != m
    ensures |Step(g, s, w).workers| == |s.workers|
    ensures Closer(|g.powers|, m, s.workers[w], Step(g, s, w).workers[w])
  {
    hide Find, NodeInv, LogInv, OneHolder, ParentsProduct, Advance, Closer, Distance, GraphOk, NodeOk;
    var k := s.workers[w];
    StepShape(g, s, w);
    assert WorkerShape(g, k) && WorkerInv(g, s, x, k);
    if k.idx != m {
      AdvanceCloser(g, m, k);
    }
    CloserInRound(|g.powers|, m, k);
  }

  lemma CloserInRound(n: nat, m: nat, k: Worker)
    ensures forall k': Worker :: k'.idx == k.idx && RoundLeft(n, k'.pc) < RoundLeft(n, k.pc) ==> Closer(n, m, k, k')
  {
  }

  /** A worker that cycles past the nodes finds m and finishes it, or finds someone holding it who
      will. */
  lemma {:induction false} CyclesTo(r: Run, m: nat, w: nat, t: nat) returns (u: nat)
    requires Valid(r) && Fair(r) && Usable(r.g) && w < |r.start.workers|
    requires m < |r.g.powers| && Ready(r.g, At(r, t), m) && Committed(At(r, t), m)
    ensures t <= u && At(r, u).nodes[m] == Computed
    decreases Distance(|r.g.powers|, At(r, t).workers[w].idx, m), RoundLeft(|r.g.powers|, At(r, t).workers[w].pc)
  {
    hide *;
    var v := NextTurn(r, w, t);
    WorkerWaits(r, w, t, v);
    CommittedStays(r, m, t, v);
    AtNext(r, v);
    CommittedStays(r, m, v, v + 1);
    var s := At(r, v);
    if s.nodes[m] == Computed {
      u := v;
    } else if s.nodes[m] == Computing {
      var h := SomeHolder(r.g, s, r.x, m);
      u := HolderFinishes(r, m, h, v);
    } else if s.workers[w].pc.Claim? && s.workers[w].idx == m {
      ClaimStep(r.g, s, r.x, w, m);
      u := HolderFinishes(r, m, w, v + 1);
    } else {
      CycleStep(r.g, s, r.x, w, m);
      InRound(r.g, s, At(r, v + 1), w, m);
      u := CyclesTo(r, m, w, v + 1);
    }
  }

  lemma SomeHolder(g: Graph, s: State, x: Slots.Vec, m: nat) returns (h: nat)
    requires Inv(g, s, x) && Ready(g, s, m) && Committed(s, m) && m < |s.nodes| && s.nodes[m] == Computing
    ensures h < |s.workers| && s.workers[h].Holds(m) && WillFinish(s.workers[h].pc)
  {
    hide WorkerInv, LogInv, OneHolder, Find;
    assert NodeInv(g, s, x, m);
    h :| 0 <= h < |s.workers| && s.workers[h].Holds(m);
  }

  lemma ClaimStep(g: Graph, s: State, x: Slots.Vec, w: nat, m: nat)
    requires Inv(g, s, x) && Ready(g, s, m) && w < |s.workers| && m < |s.nodes|
    requires s.nodes[m] == Uncomputed && s.workers[w] == Worker(m, Claim)
    ensures w < |Step(g, s, w).workers|
    ensures Step(g, s, w).workers[w].Holds(m) && WillFinish(Step(g, s, w).workers[w].pc)
  {
    hide NodeInv, WorkerInv, LogInv, OneHolder, Find;
  }

  lemma InRound(g: Graph, s: State, t: State, w: nat, m: nat)
    requires Shape(g, s) && Shape(g, t) && m < |g.powers| && w < |s.workers| && w < |t.workers|
    requires Closer(|g.powers|, m, s.workers[w], t.workers[w])
    ensures || Distance(|g.powers|, t.workers[w].idx, m) < Distance(|g.powers|, s.workers[w].idx, m)
            || (Distance(|g.powers|, t.workers[w].idx, m) == Distance(|g.powers|, s.workers[w].idx, m)
                && RoundLeft(|g.powers|, t.workers[w].pc) < RoundLeft(|g.powers|, s.workers[w].pc))
    ensures Distance(|g.powers|, s.workers[w].idx, m) >= 0 && RoundLeft(|g.powers|, s.workers[w].pc) >= 0
    ensures Distance(|g.powers|, t.workers[w].idx, m) >= 0 && RoundLeft(|g.powers|, t.workers[w].pc) >= 0
  {
    assert WorkerShape(g, s.workers[w]) && WorkerShape(g, t.workers[w]);
  }

  ghost predicate ComputedBelow(s: State, m: nat) {
    m <= |s.nodes| && forall i :: 0 <= i < m ==> s.nodes[i] == Computed
  }

  /** The least node that is not Computed becomes Computed. */
  lemma LeastGetsComputed(r: Run, m: nat, t: nat) returns (u: nat)
    requires Valid(r) && Fair(r) && Usable(r.g) && m < |r.g.powers|
    requires ComputedBelow(At(r, t), m)
    ensures t <= u && ComputedBelow(At(r, u), m + 1)
  {
    hide At, Inv, Valid, Find;
    ParentsPrecede(r.g, m);
    assert NodeOk(r.g, m);
    assert Ready(r.g, At(r, t), m);
    var v := BecomesCommitted(r, m, t);
    ReadyStays(r, m, t, v);
    u := CyclesTo(r, m, 0, v);
    forall i | 0 <= i < m ensures At(r, u).nodes[i] == Computed {
      ComputedStays(r, i, t, u);
    }
  }

  lemma {:induction false} AllGetComputed(r: Run, m: nat) returns (u: nat)
    requires Valid(r) && Fair(r) && Usable(r.g) && m <= |r.g.powers|
    ensures ComputedBelow(At(r, u), m)
  {
    hide At, Inv, Valid, Fair, Usable;
    if m == 0 {
      u := 0;
    } else {
      var t := AllGetComputed(r, m - 1);
      u := LeastGetsComputed(r, m - 1, t);
    }
  }

  ghost function ExitLeft(n: nat, pc: Pc): int {
    if pc.Scan? then n - pc.next else if pc.Claim? then n + 1 else 0
  }

  lemma ExitStep(g: Graph, s: State, x: Slots.Vec, w: nat)
    requires Inv(g, s, x) && w < |s.workers| && |s.nodes| == |g.powers| && ComputedBelow(s, |s.nodes|)
    requires !s.workers[w].pc.Returned?
    ensures |Step(g, s, w).workers| == |s.workers|
    ensures Step(g, s, w).workers[w].pc.Returned? ||
            0 <= ExitLeft(|s.nodes|, Step(g, s, w).workers[w].pc) < ExitLeft(|s.nodes|, s.workers[w].pc)
  {
    hide Find, NodeInv, LogInv, OneHolder, ParentsProduct;
    assert WorkerShape(g, s.workers[w]) && WorkerInv(g, s, x, s.workers[w]);
  }

  lemma {:induction false} WorkerReturns(r: Run, w: nat, t: nat) returns (u: nat)
    requires Valid(r) && Fair(r) && w < |r.start.workers| && ComputedBelow(At(r, t), |r.g.powers|)
    ensures t <= u && At(r, u).workers[w].pc.Returned?
    decreases ExitLeft(|r.g.powers|, At(r, t).workers[w].pc)
  {
    hide *;
    if At(r, t).workers[w].pc.Returned? {
      return t;
    }
    var v := NextTurn(r, w, t);
    WorkerWaits(r, w, t, v);
    BelowStays(r, |r.g.powers|, t, v);
    BelowStays(r, |r.g.powers|, t, v + 1);
    ExitStep(r.g, At(r, v), r.x, w);
    AtNext(r, v);
    if At(r, v + 1).workers[w].pc.Returned? {
      return v + 1;
    }
    u := WorkerReturns(r, w, v + 1);
  }

  lemma BelowStays(r: Run, m: nat, t: nat, u: nat)
    requires Valid(r) && t <= u && ComputedBelow(At(r, t), m)
    ensures ComputedBelow(At(r, u), m)
  {
    hide At, Inv, Valid, Shape;
    forall i | 0 <= i < m ensures At(r, u).nodes[i] == Computed {
      ComputedStays(r, i, t, u);
    }
  }

  lemma ReturnedStep(g: Graph, s: State, v: nat, w: nat)
    requires Shape(g, s) && v < |s.workers| && w < |s.workers| && s.workers[w].pc.Returned?
    ensures |Step(g, s, v).workers| == |s.workers| && Step(g, s, v).workers[w].pc.Returned?
  {
    StepShape(g, s, v);
  }

  lemma {:induction false} ReturnedStays(r: Run, w: nat, t: nat, u: nat)
    requires Valid(r) && w < |r.start.workers| && t <= u && At(r, t).workers[w].pc.Returned?
    ensures At(r, u).workers[w].pc.Returned?
  {
    hide *;
    if t < u {
      ReturnedStays(r, w, t, u - 1);
      AtNext(r, u - 1);
      ReturnedStep(r.g, At(r, u - 1), r.sched(u - 1), w);
    }
  }

  lemma {:induction false} WorkersReturn(r: Run, c: nat, t: nat) returns (u: nat)
    requires Valid(r) && Fair(r) && c <= |r.start.workers| && ComputedBelow(At(r, t), |r.g.powers|)
    ensures t <= u && forall w :: 0 <= w < c ==> At(r, u).workers[w].pc.Returned?
  {
    hide *;
    if c == 0 {
      u := t;
    } else {
      var v := WorkersReturn(r, c - 1, t);
      BelowStays(r, |r.g.powers|, t, v);
      u := WorkerReturns(r, c - 1, v);
      forall w | 0 <= w < c ensures At(r, u).workers[w].pc.Returned? {
        if w < c - 1 {
          ReturnedStays(r, w, v, u);
        }
      }
    }
  }

  /** Every fair interleaving of any number of workers ends, with everything computed, if and only if
      the DAG is usable; on an unusable DAG it never returns normally. */
  lemma FairRunEndsIff(r: Run)
    requires Started(r) && Fair(r)
    ensures Valid(r)
    ensures Usable(r.g) <==> exists u :: AllReturned(At(r, u)) && Complete(r.g, At(r, u), r.x)
  {
    StartedIsValid(r);
    if Usable(r.g) {
      var t := AllGetComputed(r, |r.g.powers|);
      var u := WorkersReturn(r, |r.start.workers|, t);
      SafeAtAllTimes(r, u);
      assert At(r, u).workers[0].pc.Returned?;
      assert AllReturned(At(r, u)) && Complete(r.g, At(r, u), r.x);
    } else {
      forall u | AllReturned(At(r, u)) ensures false {
        ThrowsOrReturns(r, u, 0);
      }
    }
  }

  /** The graph `parallel_apply` works on after `configure` succeeded. */
  lemma ConfiguredGraph(nodes: Nodes, source: PowerSet, target: PowerSet, p: int)
    requires Configured(nodes, source, target) && p > 0
    ensures GraphOk(Graph(target, nodes, p))
    ensures Usable(Graph(target, nodes, p)) <==> AllSplittable(source, target)
  {
    var g := Graph(target, nodes, p);
    forall i | 0 <= i < |target| ensures NodeOk(g, i) {
      assert NodeFor(nodes, source, target, target[i]);
    }
    ParentsAreTargetsIff(nodes, source, target);
    forall n | n in target
      ensures n !in source <==> !nodes[n].IsSource()
    {
      assert NodeFor(nodes, source, target, n);
    }
    if AllSplittable(source, target) {
      forall i | 0 <= i < |target| ensures target[i] in g.nodes && ParentsFound(g, i) {
        assert target[i] in target && NodeOk(g, i);
      }
    }
    if Usable(g) {
      forall n | n in target && n !in source ensures nodes[n].p1 in target && nodes[n].p2 in target {
        var i :| 0 <= i < |target| && target[i] == n;
        assert ParentsFound(g, i);
      }
    }
  }

  /** From `configure` to the powers: a fair run over the configured DAG computes every target power
      of the query if and only if every computed target is a sum of two targets. */
  lemma ComputePowersIff(nodes: Nodes, source: PowerSet, target: PowerSet, r: Run)
    requires Configured(nodes, source, target)
    requires Started(r) && Fair(r) && r.g.powers == target && r.g.nodes == nodes
    ensures Valid(r)
    ensures AllSplittable(source, target) <==>
            exists u :: AllReturned(At(r, u)) && Complete(r.g, At(r, u), r.x)
  {
    ConfiguredGraph(nodes, source, target, r.g.modulus);
    FairRunEndsIff(r);
  }
}
