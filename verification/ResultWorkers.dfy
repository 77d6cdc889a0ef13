/** The workers that collect the results of a query (`Sender::process_result_worker` of sender_ddh.cpp):
    packages are claimed by compare-and-swap on a shared counter, received in any order, and copied to their
    place in the shared matrix. */
module ResultWorkers {
  import opened ModArith
  import opened Interpolate
  import opened ResultBlocks
  import opened MaskLayout

  /** A result package, with the slots it decrypts to. */
  datatype Part = Part(cache: nat, bundle: nat, slots: seq<int>)

  /** n bundle indices; the parts in the order in which they come through the channel. */
  datatype Job = Job(shape: Shape, n: nat, maxCount: nat, parts: seq<Part>) {
    ghost predicate Valid() {
      && shape.Valid()
      && (forall k :: 0 <= k < |parts| ==> PartOk(parts[k]))
      && (forall k, l :: 0 <= k < l < |parts| ==> (parts[k].cache, parts[k].bundle) != (parts[l].cache, parts[l].bundle))
    }

    ghost predicate PartOk(part: Part) {
      && part.cache < maxCount && part.bundle < n
      && shape.items * shape.felts <= |part.slots| && Felts(part.slots, shape.modulus)
    }
  }

  /** Where a worker is: about to load the counter, about to try the swap with the value it has loaded, with a
      claim but no package, with package k, or returned. */
  datatype Worker = Start | Loaded(seen: nat) | Claimed | Holding(k: nat) | Returned

  /** `came` packages have come through the channel and `taken` of them have been received; `log` is a record
      of the copies made so far. */
  datatype State = State(packageCount: nat, workers: seq<Worker>, came: nat, taken: nat, matrix: seq<Block>, log: seq<nat>)

  function Offset(job: Job, part: Part): (r: nat)
    ensures r == CellIndex(job.n, part.cache, part.bundle) * job.shape.items
  {
    OffsetNat(CellIndex(job.n, part.cache, part.bundle), job.shape.items);
    CellIndex(job.n, part.cache, part.bundle) * job.shape.items
  }

  lemma OffsetNat(k: nat, items: nat)
    ensures k * items >= 0
  {
  }

  lemma CellBelow(n: nat, maxCount: nat, c: nat, b: nat)
    requires c < maxCount && b < n
    ensures CellIndex(n, c, b) < maxCount * n
  {
    ProductNat(c + 1, n);
    ItemFits(c, maxCount, n);
  }

  lemma RangeFits(job: Job, part: Part)
    requires job.PartOk(part)
    ensures Offset(job, part) + job.shape.items <= job.maxCount * job.n * job.shape.items
  {
    CellBelow(job.n, job.maxCount, part.cache, part.bundle);
    ItemFits(CellIndex(job.n, part.cache, part.bundle), job.maxCount * job.n, job.shape.items);
    ItemRange(CellIndex(job.n, part.cache, part.bundle), job.shape.items);
  }

  lemma CellIndexInjective(n: nat, c: nat, b: nat, c': nat, b': nat)
    requires b < n && b' < n && CellIndex(n, c, b) == CellIndex(n, c', b')
    ensures c == c' && b == b'
  {
    DivModUnique(CellIndex(n, c, b), c, b, n);
    DivModUnique(CellIndex(n, c', b'), c', b', n);
  }

  /** Different cells are copied to disjoint ranges. */
  lemma RangesDisjoint(job: Job, p: Part, q: Part)
    requires job.PartOk(p) && job.PartOk(q) && (p.cache, p.bundle) != (q.cache, q.bundle)
    ensures Offset(job, p) + job.shape.items <= Offset(job, q) || Offset(job, q) + job.shape.items <= Offset(job, p)
  {
    var i, j := CellIndex(job.n, p.cache, p.bundle), CellIndex(job.n, q.cache, q.bundle);
    if i == j {
      CellIndexInjective(job.n, p.cache, p.bundle, q.cache, q.bundle);
    }
    ItemRange(i, job.shape.items);
    ItemRange(j, job.shape.items);
    if i < j {
      ItemFits(i, j, job.shape.items);
    } else if j < i {
      ItemFits(j, i, job.shape.items);
    }
  }

  /** `copy` of the blocks to an offset. */
  function Copied(matrix: seq<Block>, at: nat, blocks: seq<Block>): (r: seq<Block>)
    requires at + |blocks| <= |matrix|
    ensures |r| == |matrix|
    ensures forall i :: 0 <= i < |r| ==> r[i] == if at <= i < at + |blocks| then blocks[i - at] else matrix[i]
  {
    matrix[..at] + blocks + matrix[at + |blocks|..]
  }

  /** The package is in the matrix. */
  ghost predicate InPlace(job: Job, matrix: seq<Block>, part: Part)
    requires job.PartOk(part)
  {
    && Offset(job, part) + job.shape.items <= |matrix|
    && forall i :: 0 <= i < job.shape.items ==> At(matrix, Offset(job, part), i) == ItemBlock(part.slots, job.shape, i)
  }

  function At(matrix: seq<Block>, offset: nat, i: nat): Block
    requires offset + i < |matrix|
  {
    matrix[offset + i]
  }

  /** Workers with a claim that has not been copied yet. */
  function Busy(workers: seq<Worker>, n: nat): nat
    requires n <= |workers|
  {
    if n == 0 then 0 else Busy(workers, n - 1) + if workers[n - 1].Claimed? || workers[n - 1].Holding? then 1 else 0
  }

  /** Of these, the ones with a package. */
  function Held(workers: seq<Worker>, n: nat): nat
    requires n <= |workers|
  {
    if n == 0 then 0 else Held(workers, n - 1) + if workers[n - 1].Holding? then 1 else 0
  }

  lemma {:induction false} CountsStep(workers: seq<Worker>, w: nat, x: Worker, n: nat)
    requires w < |workers| && n <= |workers|
    ensures Busy(workers[w := x], n) == Busy(workers, n)
      + (if w < n && (x.Claimed? || x.Holding?) then 1 else 0) - (if w < n && (workers[w].Claimed? || workers[w].Holding?) then 1 else 0)
    ensures Held(workers[w := x], n) == Held(workers, n)
      + (if w < n && x.Holding? then 1 else 0) - (if w < n && workers[w].Holding? then 1 else 0)
  {
    if n > 0 {
      CountsStep(workers, w, x, n - 1);
    }
  }

  lemma {:induction false} CountsZero(workers: seq<Worker>, n: nat)
    requires n <= |workers| && forall w :: 0 <= w < n ==> !workers[w].Claimed? && !workers[w].Holding?
    ensures Busy(workers, n) == 0 == Held(workers, n)
  {
    if n > 0 {
      CountsZero(workers, n - 1);
    }
  }

  lemma {:induction false} CountsOne(workers: seq<Worker>, w: nat, n: nat)
    requires w < n <= |workers| && workers[w].Claimed?
    ensures Busy(workers, n) > Held(workers, n)
  {
    CountsOrder(workers, n - 1);
    if w < n - 1 {
      CountsOne(workers, w, n - 1);
    }
  }

  lemma {:induction false} CountsOrder(workers: seq<Worker>, n: nat)
    requires n <= |workers|
    ensures Held(workers, n) <= Busy(workers, n)
  {
    if n > 0 {
      CountsOrder(workers, n - 1);
    }
  }

  /** Packages being held are different, received, and not copied yet; so are the copied ones. */
  ghost predicate Distinctly(s: State) {
    && (forall v, w :: 0 <= v < w < |s.workers| && s.workers[v].Holding? && s.workers[w].Holding? ==> s.workers[v].k != s.workers[w].k)
    && (forall w :: 0 <= w < |s.workers| && s.workers[w].Holding? ==> s.workers[w].k < s.taken && s.workers[w].k !in s.log)
    && (forall i :: 0 <= i < |s.log| ==> s.log[i] < s.taken)
    && (forall i, j :: 0 <= i < j < |s.log| ==> s.log[i] != s.log[j])
  }

  ghost predicate CountersOk(job: Job, s: State) {
    && s.packageCount <= |job.parts|
    && s.taken <= s.came <= |job.parts|
    && |job.parts| - s.packageCount == Busy(s.workers, |s.workers|) + |s.log|
    && s.taken == Held(s.workers, |s.workers|) + |s.log|
    && (forall w :: 0 <= w < |s.workers| && s.workers[w].Loaded? ==> s.workers[w].seen >= s.packageCount && s.workers[w].seen > 0)
    && (forall w :: 0 <= w < |s.workers| && s.workers[w].Returned? ==> s.packageCount == 0)
  }

  ghost predicate MatrixOk(job: Job, s: State)
    requires job.Valid()
  {
    && |s.matrix| == job.maxCount * job.n * job.shape.items
    && forall i :: 0 <= i < |s.log| ==> s.log[i] < |job.parts| && InPlace(job, s.matrix, job.parts[s.log[i]])
  }

  ghost predicate Inv(job: Job, s: State) {
    job.Valid() && Distinctly(s) && CountersOk(job, s) && MatrixOk(job, s)
  }

  ghost predicate Init(job: Job, s: State) {
    && job.Valid() && s.packageCount == |job.parts| && s.came == s.taken == 0 && s.log == []
    && (forall w :: 0 <= w < |s.workers| ==> s.workers[w] == Start)
    && |s.matrix| == job.maxCount * job.n * job.shape.items
  }

  lemma InitInv(job: Job, s: State)
    requires Init(job, s)
    ensures Inv(job, s)
  {
    CountsZero(s.workers, |s.workers|);
  }

  // ---------- Atomic steps ----------

  /** The next package comes through the channel. */
  ghost predicate Arrive(job: Job, s: State, s': State) {
    s.came < |job.parts| && s' == s.(came := s.came + 1)
  }

  /** Worker w's next step; the swap fails when the counter has moved. */
  ghost predicate Step(job: Job, s: State, s': State, w: nat)
    requires job.Valid()
  {
    w < |s.workers| &&
    match s.workers[w]
    case Start =>
      s' == s.(workers := s.workers[w := if s.packageCount == 0 then Returned else Loaded(s.packageCount)])
    case Loaded(seen) =>
      if s.packageCount == seen && seen > 0 then s' == s.(packageCount := seen - 1, workers := s.workers[w := Claimed])
      else s' == s.(workers := s.workers[w := Start])
    case Claimed =>
      s.taken < s.came && s' == s.(taken := s.taken + 1, workers := s.workers[w := Holding(s.taken)])
    case Holding(k) =>
      k < |job.parts| && job.PartOk(job.parts[k]) && Offset(job, job.parts[k]) + job.shape.items <= |s.matrix|
      && s' == s.(matrix := Copied(s.matrix, Offset(job, job.parts[k]), ItemBlocks(job.parts[k].slots, job.shape)),
                  workers := s.workers[w := Start], log := s.log + [k])
    case Returned => false
  }

  lemma CopyKeeps(job: Job, matrix: seq<Block>, p: Part, q: Part)
    requires job.PartOk(p) && job.PartOk(q) && (p.cache, p.bundle) != (q.cache, q.bundle)
    requires Offset(job, p) + job.shape.items <= |matrix| && InPlace(job, matrix, q)
    ensures InPlace(job, Copied(matrix, Offset(job, p), ItemBlocks(p.slots, job.shape)), q)
  {
    hide Offset, ItemBlock;
    RangesDisjoint(job, p, q);
    var m := Copied(matrix, Offset(job, p), ItemBlocks(p.slots, job.shape));
    forall i | 0 <= i < job.shape.items
      ensures At(m, Offset(job, q), i) == ItemBlock(q.slots, job.shape, i)
    {
      assert At(matrix, Offset(job, q), i) == ItemBlock(q.slots, job.shape, i);
    }
  }

  lemma CopyPlaces(job: Job, matrix: seq<Block>, p: Part)
    requires job.PartOk(p) && Offset(job, p) + job.shape.items <= |matrix|
    ensures InPlace(job, Copied(matrix, Offset(job, p), ItemBlocks(p.slots, job.shape)), p)
  {
    hide Offset;
  }

  lemma CopyMatrixOk(job: Job, s: State, s': State, w: nat)
    requires Inv(job, s) && w < |s.workers| && s.workers[w].Holding? && Step(job, s, s', w)
    ensures MatrixOk(job, s')
  {
    hide Offset, InPlace, CountersOk;
    var k := s.workers[w].k;
    CopyPlaces(job, s.matrix, job.parts[k]);
    forall i | 0 <= i < |s'.log|
      ensures s'.log[i] < |job.parts| && InPlace(job, s'.matrix, job.parts[s'.log[i]])
    {
      if i < |s.log| {
        assert s.log[i] != k;
        CopyKeeps(job, s.matrix, job.parts[k], job.parts[s.log[i]]);
      }
    }
  }

  lemma StepDistinctly(job: Job, s: State, s': State, w: nat)
    requires Inv(job, s) && Step(job, s, s', w)
    ensures Distinctly(s')
  {
    hide MatrixOk, Offset, Busy, Held;
  }

  lemma StepCounters(job: Job, s: State, s': State, w: nat)
    requires Inv(job, s) && Step(job, s, s', w)
    ensures CountersOk(job, s')
  {
    hide MatrixOk, Offset, Distinctly;
    CountsStep(s.workers, w, s'.workers[w], |s.workers|);
  }

  /** What every step of every worker keeps. */
  lemma StepInv(job: Job, s: State, s': State, w: nat)
    requires Inv(job, s) && Step(job, s, s', w)
    ensures Inv(job, s')
  {
    hide Offset, Busy, Held, Distinctly, CountersOk;
    StepDistinctly(job, s, s', w);
    StepCounters(job, s, s', w);
    if s.workers[w].Holding? {
      CopyMatrixOk(job, s, s', w);
    }
  }

  lemma ArriveInv(job: Job, s: State, s': State)
    requires Inv(job, s) && Arrive(job, s, s')
    ensures Inv(job, s')
  {
  }

  /** Once all packages have come, a worker that has not returned can always move: a claim never waits for a
      package that does not exist. */
  lemma NeverStuck(job: Job, s: State, w: nat) returns (s': State)
    requires Inv(job, s) && s.came == |job.parts| && w < |s.workers| && !s.workers[w].Returned?
    ensures Step(job, s, s', w)
  {
    match s.workers[w]
    case Start =>
      s' := s.(workers := s.workers[w := if s.packageCount == 0 then Returned else Loaded(s.packageCount)]);
    case Loaded(seen) =>
      s' := if s.packageCount == seen && seen > 0 then s.(packageCount := seen - 1, workers := s.workers[w := Claimed])
            else s.(workers := s.workers[w := Start]);
    case Claimed =>
      CountsOne(s.workers, w, |s.workers|);
      s' := s.(taken := s.taken + 1, workers := s.workers[w := Holding(s.taken)]);
    case Holding(k) =>
      RangeFits(job, job.parts[k]);
      s' := s.(matrix := Copied(s.matrix, Offset(job, job.parts[k]), ItemBlocks(job.parts[k].slots, job.shape)),
               workers := s.workers[w := Start], log := s.log + [k]);
  }

  /** Any interleaving of arrivals (None) and steps of workers. */
  datatype Move = Arrival | Of(w: nat)

  ghost predicate Run(job: Job, states: seq<State>, moves: seq<Move>) {
    && |states| == |moves| + 1 && Init(job, states[0])
    && forall i :: 0 <= i < |moves| ==>
      if moves[i].Arrival? then Arrive(job, states[i], states[i + 1]) else Step(job, states[i], states[i + 1], moves[i].w)
  }

  lemma {:induction false} RunInv(job: Job, states: seq<State>, moves: seq<Move>)
    requires Run(job, states, moves)
    ensures Inv(job, states[|moves|]) && |states[|moves|].workers| == |states[0].workers|
  {
    hide Inv;
    var k := |moves|;
    if k == 0 {
      InitInv(job, states[0]);
    } else {
      RunInv(job, states[..k], moves[..k - 1]);
      if moves[k - 1].Arrival? {
        ArriveInv(job, states[k - 1], states[k]);
      } else {
        StepInv(job, states[k - 1], states[k], moves[k - 1].w);
      }
    }
  }

  /** n different numbers below n are all of them. */
  lemma InjectiveCovers(log: seq<nat>, n: nat, k: nat)
    requires |log| == n && k < n && (forall i :: 0 <= i < n ==> log[i] < n)
    requires forall i, j :: 0 <= i < j < n ==> log[i] != log[j]
    ensures k in log
  {
    if k !in log {
      var more: seq<int> := seq(n + 1, i requires 0 <= i < n + 1 => if i < n then log[i] + 1 else k + 1);
      DistinctBound(more, n);
    }
  }

  /** When all workers (one at least) have returned, every package has been claimed, received and copied
      exactly once: the log names each of them once, and each is in its place. */
  lemma AllCollected(job: Job, states: seq<State>, moves: seq<Move>)
    requires Run(job, states, moves) && |states[0].workers| >= 1
    requires forall w :: 0 <= w < |states[|moves|].workers| ==> states[|moves|].workers[w].Returned?
    ensures var s := states[|moves|];
            s.packageCount == 0 && s.taken == |s.log| == |job.parts|
            && (forall i, j :: 0 <= i < j < |s.log| ==> s.log[i] != s.log[j])
            && (forall k :: 0 <= k < |job.parts| ==> k in s.log && job.PartOk(job.parts[k]) && InPlace(job, s.matrix, job.parts[k]))
  {
    hide InPlace, Offset;
    var s := states[|moves|];
    RunInv(job, states, moves);
    CountsZero(s.workers, |s.workers|);
    assert s.workers[0].Returned?;
    forall k | 0 <= k < |job.parts|
      ensures k in s.log && InPlace(job, s.matrix, job.parts[k])
    {
      InjectiveCovers(s.log, |job.parts|, k);
    }
  }
}
