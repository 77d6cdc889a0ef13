/** What the two matrices say together: a cell of the sender's decrypted matrix equals the receiver's random
    matrix exactly when the item is in the bundle. */
module ResultMatching {
  import opened ModArith
  import opened Interpolate
  import opened BatchedPolyn
  import opened ResultBlocks
  import opened MaskLayout
  import opened ResultWorkers
  import Slots

  /** The evaluation of a bundle's matching polynomial on a query, under a mask. */
  ghost predicate IsResult(slots: seq<int>, bins: seq<seq<int>>, x: Slots.Vec, mask: seq<int>, p: int) {
    && Prime(p) && |bins| <= |x| == |mask| && Felts(x, p) && Felts(mask, p)
    && (forall i :: 0 <= i < |bins| ==> Felts(bins[i], p))
    && slots == Masked(Batched(Polyns(bins, p), |x|), x, mask, p)
  }

  function Polyns(bins: seq<seq<int>>, p: int): (r: seq<seq<int>>)
    requires p > 0
    ensures |r| == |bins|
  {
    seq(|bins|, i requires 0 <= i < |bins| => Monic(bins[i], p))
  }

  /** Every felt of item i of the query is in its bin (slots beyond the bins do not matter). */
  ghost predicate ItemInBins(bins: seq<seq<int>>, x: Slots.Vec, felts: nat, i: nat)
    requires (i + 1) * felts <= |x|
  {
    forall j :: 0 <= j < felts ==> FeltInBin(bins, x, SlotOf(i, felts, j))
  }

  ghost predicate FeltInBin(bins: seq<seq<int>>, x: Slots.Vec, s: nat)
    requires s < |x|
  {
    s < |bins| ==> x[s] in bins[s]
  }

  lemma SlotRevealed(slots: seq<int>, bins: seq<seq<int>>, x: Slots.Vec, mask: seq<int>, p: int, s: nat)
    requires IsResult(slots, bins, x, mask, p) && s < |x|
    ensures |slots| == |x| && (slots[s] == mask[s] <==> FeltInBin(bins, x, s)) && 0 <= slots[s] < p
  {
    MaskUncoveredIff(bins, |x|, x, mask, p, s);
  }

  lemma ResultFelts(slots: seq<int>, bins: seq<seq<int>>, x: Slots.Vec, mask: seq<int>, p: int)
    requires IsResult(slots, bins, x, mask, p)
    ensures |slots| == |x| && Felts(slots, p)
  {
    forall s | 0 <= s < |slots|
      ensures 0 <= slots[s] < p
    {
      SlotRevealed(slots, bins, x, mask, p, s);
    }
  }

  /** The block of an item of the result is the block of its mask exactly when the item is in the bins. */
  lemma ItemRevealed(slots: seq<int>, bins: seq<seq<int>>, x: Slots.Vec, mask: seq<int>, shape: Shape, i: nat)
    requires shape.Valid() && IsResult(slots, bins, x, mask, shape.modulus) && i < shape.items
    requires shape.items * shape.felts <= |x|
    ensures |slots| == |x| && (i + 1) * shape.felts <= |x|
    ensures ItemBlock(slots, shape, i) == ItemBlock(mask, shape, i) <==> ItemInBins(bins, x, shape.felts, i)
  {
    hide IsResult, Packed, FeltInBin, IsLength;
    ResultParts(slots, bins, x, mask, shape.modulus);
    ItemFits(i, shape.items, shape.felts);
    var xs, ys := ItemFelts(slots, shape.felts, i), ItemFelts(mask, shape.felts, i);
    BlocksEqualIff(xs, ys, shape.modulus, shape.len);
    forall j | 0 <= j < shape.felts
      ensures xs[j] == ys[j] <==> FeltInBin(bins, x, SlotOf(i, shape.felts, j))
    {
      SlotRevealed(slots, bins, x, mask, shape.modulus, SlotOf(i, shape.felts, j));
    }
  }

  lemma ResultParts(slots: seq<int>, bins: seq<seq<int>>, x: Slots.Vec, mask: seq<int>, p: int)
    requires IsResult(slots, bins, x, mask, p)
    ensures |slots| == |x| == |mask| && Felts(slots, p) && Felts(mask, p)
  {
    ResultFelts(slots, bins, x, mask, p);
  }

  /** End to end, for equal cache counts: after any complete run of the workers, and with every part evaluated
      under the mask its package index selects, row i of cell (cache, bundle) is the same in both matrices
      exactly when item i of the query at that bundle index is in the bundle. */
  lemma CellsMatchIff(job: Job, states: seq<State>, moves: seq<Move>, counts: seq<nat>, gen: Masks, k: nat, i: nat,
      bins: seq<seq<int>>, x: Slots.Vec)
    requires Run(job, states, moves) && |states[0].workers| >= 1
    requires forall w :: 0 <= w < |states[|moves|].workers| ==> states[|moves|].workers[w].Returned?
    requires |counts| == job.n && MasksOk(gen, job.shape) && forall b :: 0 <= b < |counts| ==> counts[b] == job.maxCount
    requires k < |job.parts| && i < job.shape.items && job.shape.items * job.shape.felts <= |x|
    requires var part := job.parts[k];
             var list, at := Plains(counts, gen, job.maxCount, 0), CellIndex(job.n, part.cache, part.bundle);
             at < |list| && IsResult(part.slots, bins, x, list[at], job.shape.modulus)
    ensures var part := job.parts[k];
            var at := CellIndex(job.n, part.cache, part.bundle) * job.shape.items + i;
            (i + 1) * job.shape.felts <= |x|
            && 0 <= at < |states[|moves|].matrix| && at < |Matrix(counts, gen, job.shape, job.maxCount, 0)|
            && (states[|moves|].matrix[at] == Matrix(counts, gen, job.shape, job.maxCount, 0)[at]
                <==> ItemInBins(bins, x, job.shape.felts, i))
  {
    hide Run, IsResult, ItemInBins, Matrix, Plains, ItemBlock, MasksOk;
    var part := job.parts[k];
    CollectedCell(job, states, moves, k, i);
    MaskCell(counts, job.maxCount, gen, job.shape, part.cache, part.bundle, i);
    ItemRevealed(part.slots, bins, x, gen(part.cache, part.bundle), job.shape, i);
  }

  lemma CollectedCell(job: Job, states: seq<State>, moves: seq<Move>, k: nat, i: nat)
    requires Run(job, states, moves) && |states[0].workers| >= 1
    requires forall w :: 0 <= w < |states[|moves|].workers| ==> states[|moves|].workers[w].Returned?
    requires k < |job.parts| && i < job.shape.items
    ensures job.PartOk(job.parts[k]) && job.shape.Valid()
    ensures var part := job.parts[k];
            Offset(job, part) + i < |states[|moves|].matrix|
            && At(states[|moves|].matrix, Offset(job, part), i) == ItemBlock(part.slots, job.shape, i)
  {
    hide ItemBlock, Step, Arrive, Offset;
    AllCollected(job, states, moves);
    var m := states[|moves|].matrix;
    assert InPlace(job, m, job.parts[k]);
  }

  lemma MaskCell(counts: seq<nat>, maxCount: nat, gen: Masks, shape: Shape, c: nat, b: nat, i: nat)
    requires MasksOk(gen, shape) && c < maxCount && b < |counts| && i < shape.items
    requires forall k :: 0 <= k < |counts| ==> counts[k] == maxCount
    ensures shape.items * shape.felts <= |gen(c, b)|
    ensures var list, at := Plains(counts, gen, maxCount, 0), CellIndex(|counts|, c, b); at < |list| && list[at] == gen(c, b)
    ensures var at := CellIndex(|counts|, c, b) * shape.items + i;
            0 <= at < |Matrix(counts, gen, shape, maxCount, 0)|
            && Matrix(counts, gen, shape, maxCount, 0)[at] == ItemBlock(gen(c, b), shape, i)
  {
    hide Matrix, Plains, ItemBlock;
    PackIndexIff(counts, maxCount, gen, c, b);
    MatrixAt(counts, maxCount, gen, shape, c, b, i);
  }

  // ---------- Every entry of the matrices ----------

  /** The cells of the parts, as numbers. */
  ghost function Cells(job: Job): (r: seq<nat>)
    ensures |r| == |job.parts|
    ensures forall k :: 0 <= k < |r| ==> r[k] == CellIndex(job.n, job.parts[k].cache, job.parts[k].bundle)
  {
    seq(|job.parts|, k requires 0 <= k < |job.parts| => CellIndex(job.n, job.parts[k].cache, job.parts[k].bundle))
  }

  /** As many parts as cells: every cell has its part. */
  lemma EveryCellHasPart(job: Job, cell: nat) returns (k: nat)
    requires job.Valid() && |job.parts| == job.maxCount * job.n && cell < job.maxCount * job.n
    ensures k < |job.parts| && CellIndex(job.n, job.parts[k].cache, job.parts[k].bundle) == cell
  {
    hide CellIndex;
    var cells := Cells(job);
    forall i | 0 <= i < |cells|
      ensures cells[i] < job.maxCount * job.n
    {
      assert job.PartOk(job.parts[i]);
      CellBelow(job.n, job.maxCount, job.parts[i].cache, job.parts[i].bundle);
    }
    forall i, j | 0 <= i < j < |cells|
      ensures cells[i] != cells[j]
    {
      assert job.PartOk(job.parts[i]) && job.PartOk(job.parts[j]);
      if cells[i] == cells[j] {
        CellIndexInjective(job.n, job.parts[i].cache, job.parts[i].bundle, job.parts[j].cache, job.parts[j].bundle);
      }
    }
    InjectiveCovers(cells, |cells|, cell);
    k :| 0 <= k < |cells| && cells[k] == cell;
  }

  lemma RowOf(at: nat, cells: nat, items: nat) returns (cell: nat, i: nat)
    requires at < cells * items
    ensures cell < cells && i < items && at == cell * items + i
  {
    TimesAtLeast(0, items, cells);
    cell, i := at / items, at % items;
    assert at == cell * items + i;
    TimesAtLeast(cells, cell, items);
  }

  lemma TimesAtLeast(a: nat, b: nat, m: nat)
    ensures b >= a ==> b * m >= a * m
    ensures b == 0 ==> m * b == 0
  {
  }

  /** The reply for each part, evaluated under the mask its package index selects. */
  ghost predicate Evaluated(job: Job, list: seq<seq<int>>, bins: (nat, nat) -> seq<seq<int>>, x: nat -> Slots.Vec) {
    forall k :: 0 <= k < |job.parts| ==> EvaluatedAt(job, list, bins, x, k)
  }

  ghost predicate EvaluatedAt(job: Job, list: seq<seq<int>>, bins: (nat, nat) -> seq<seq<int>>, x: nat -> Slots.Vec,
      k: nat)
    requires k < |job.parts|
  {
    var part := job.parts[k];
    var at := CellIndex(job.n, part.cache, part.bundle);
    && at < |list| && job.shape.items * job.shape.felts <= |x(part.bundle)|
    && IsResult(part.slots, bins(part.cache, part.bundle), x(part.bundle), list[at], job.shape.modulus)
  }

  /** With equal cache counts and a package for every cell, the two matrices have the same entries and each of
      them is decided: they agree at row i of cell (c, b) exactly when item i of the query at bundle index b is
      in bundle (c, b). */
  lemma EveryEntryDecided(job: Job, states: seq<State>, moves: seq<Move>, counts: seq<nat>, gen: Masks,
      bins: (nat, nat) -> seq<seq<int>>, x: nat -> Slots.Vec, at: nat) returns (c: nat, b: nat, i: nat)
    requires Run(job, states, moves) && |states[0].workers| >= 1
    requires forall w :: 0 <= w < |states[|moves|].workers| ==> states[|moves|].workers[w].Returned?
    requires |counts| == job.n && MasksOk(gen, job.shape) && forall b :: 0 <= b < |counts| ==> counts[b] == job.maxCount
    requires |job.parts| == job.maxCount * job.n && Evaluated(job, Plains(counts, gen, job.maxCount, 0), bins, x)
    requires at < |Matrix(counts, gen, job.shape, job.maxCount, 0)|
    ensures |states[|moves|].matrix| == |Matrix(counts, gen, job.shape, job.maxCount, 0)|
    ensures c < job.maxCount && b < job.n && i < job.shape.items && (i + 1) * job.shape.felts <= |x(b)|
    ensures at == CellIndex(job.n, c, b) * job.shape.items + i
    ensures states[|moves|].matrix[at] == Matrix(counts, gen, job.shape, job.maxCount, 0)[at]
      <==> ItemInBins(bins(c, b), x(b), job.shape.felts, i)
  {
    hide Run, IsResult, ItemInBins, Matrix, Plains, ItemBlock, MasksOk, CellIndex;
    MatrixSizes(job, states, moves, counts, gen);
    var cell: nat;
    cell, i := RowOf(at, job.maxCount * job.n, job.shape.items);
    var k := EveryCellHasPart(job, cell);
    c, b := job.parts[k].cache, job.parts[k].bundle;
    assert job.PartOk(job.parts[k]) && EvaluatedAt(job, Plains(counts, gen, job.maxCount, 0), bins, x, k);
    CellsMatchIff(job, states, moves, counts, gen, k, i, bins(c, b), x(b));
  }

  lemma MatrixSizes(job: Job, states: seq<State>, moves: seq<Move>, counts: seq<nat>, gen: Masks)
    requires Run(job, states, moves) && |counts| == job.n && MasksOk(gen, job.shape)
    ensures job.Valid() && |states[|moves|].matrix| == job.maxCount * job.n * job.shape.items
    ensures |Matrix(counts, gen, job.shape, job.maxCount, 0)| == job.maxCount * job.n * job.shape.items
  {
    hide Matrix;
    RunInv(job, states, moves);
    MatrixLength(counts, gen, job.shape, job.maxCount, 0);
  }
}
