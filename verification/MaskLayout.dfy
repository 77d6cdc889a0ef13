/** The masks of a query (receiver_ddh.cpp): for every bundle index and cache a random plaintext, and a
    row-major matrix of the blocks it hides the results with, padded where a bundle index has fewer caches. */
module MaskLayout {
  import opened Interpolate
  import opened ResultBlocks
  import BinarySums

  const ALL_ONE_BLOCK: Block := Block(0xFFFF_FFFF_FFFF_FFFF, 0xFFFF_FFFF_FFFF_FFFF)

  /** Felts per item, items per bundle, the plain modulus and its length in bits. */
  datatype Shape = Shape(felts: nat, items: nat, modulus: nat, len: nat) {
    ghost predicate Valid() {
      felts % 2 == 0 && 0 < modulus < BinarySums.Pow2(30) && IsLength(len, modulus) && len * (felts / 2) <= 64
    }
  }

  /** The felts of item i. */
  function ItemFelts(slots: seq<int>, felts: nat, i: nat): (r: seq<int>)
    requires (i + 1) * felts <= |slots|
    ensures |r| == felts && forall j :: 0 <= j < felts ==> r[j] == slots[SlotOf(i, felts, j)]
  {
    ItemRange(i, felts);
    slots[i * felts..(i + 1) * felts]
  }

  function SlotOf(i: nat, felts: nat, j: nat): (s: nat)
    requires j < felts
    ensures s == i * felts + j && s < (i + 1) * felts
  {
    ItemRange(i, felts);
    i * felts + j
  }

  lemma ItemRange(i: nat, felts: nat)
    ensures 0 <= i * felts && (i + 1) * felts == i * felts + felts
  {
  }

  lemma ItemFits(i: nat, n: nat, felts: nat)
    requires i < n
    ensures (i + 1) * felts <= n * felts
  {
  }

  /** The blocks of the items of a batched vector. */
  function ItemBlocks(slots: seq<int>, shape: Shape): (r: seq<Block>)
    requires shape.items * shape.felts <= |slots|
    ensures |r| == shape.items
  {
    seq(shape.items, i requires 0 <= i < shape.items => ItemBlock(slots, shape, i))
  }

  function ItemBlock(slots: seq<int>, shape: Shape, i: nat): Block
    requires i < shape.items && shape.items * shape.felts <= |slots|
  {
    ItemFits(i, shape.items, shape.felts);
    Packed(ItemFelts(slots, shape.felts, i), shape.len)
  }

  method PackItems(slots: seq<int>, shape: Shape) returns (blocks: seq<Block>)
    requires shape.Valid() && shape.items * shape.felts <= |slots| && Felts(slots, shape.modulus)
    ensures blocks == ItemBlocks(slots, shape)
  {
    hide Packed, IsLength;
    blocks := [];
    for i := 0 to shape.items
      invariant |blocks| == i && forall k :: 0 <= k < i ==> blocks[k] == ItemBlock(slots, shape, k)
    {
      ItemFits(i, shape.items, shape.felts);
      var rest := seq(shape.felts, _ => 0);
      for j := 0 to shape.felts
        invariant |rest| == shape.felts && forall k :: 0 <= k < j ==> rest[k] == slots[SlotOf(i, shape.felts, k)]
      {
        rest := rest[j := slots[SlotOf(i, shape.felts, j)]];
      }
      assert rest == ItemFelts(slots, shape.felts, i);
      var block := VecToOcBlock(rest, shape.felts, shape.modulus, shape.len);
      blocks := blocks + [block];
    }
  }

  /** The masks, by cache and bundle index. */
  type Masks = (nat, nat) -> seq<int>

  /** Every mask has a slot for every felt of the items. */
  ghost predicate Wide(gen: Masks, shape: Shape) {
    forall c, b :: shape.items * shape.felts <= |gen(c, b)|
  }

  ghost predicate MasksOk(gen: Masks, shape: Shape) {
    Wide(gen, shape) && forall c, b :: Felts(gen(c, b), shape.modulus)
  }

  predicate Padded(counts: seq<nat>, c: nat, b: nat)
    requires b < |counts|
  {
    c >= counts[b]
  }

  /** The matrix rows of one cell. */
  function Row(counts: seq<nat>, gen: Masks, shape: Shape, c: nat, b: nat): (r: seq<Block>)
    requires b < |counts| && Wide(gen, shape)
    ensures |r| == shape.items
  {
    if Padded(counts, c, b) then seq(shape.items, _ => ALL_ONE_BLOCK) else ItemBlocks(gen(c, b), shape)
  }

  /** The list of plaintexts when cell (c, b) is reached: the padded cells have added nothing. */
  function Plains(counts: seq<nat>, gen: Masks, c: nat, b: nat): seq<seq<int>>
    requires b <= |counts|
    decreases c, b
  {
    if b > 0 then Plains(counts, gen, c, b - 1) + (if Padded(counts, c, b - 1) then [] else [gen(c, b - 1)])
    else if c > 0 then Plains(counts, gen, c - 1, |counts|)
    else []
  }

  function Matrix(counts: seq<nat>, gen: Masks, shape: Shape, c: nat, b: nat): seq<Block>
    requires b <= |counts| && Wide(gen, shape)
    decreases c, b
  {
    if b > 0 then Matrix(counts, gen, shape, c, b - 1) + Row(counts, gen, shape, c, b - 1)
    else if c > 0 then Matrix(counts, gen, shape, c - 1, |counts|)
    else []
  }

  /** The loops of the query: caches outside, bundle indices inside. */
  method GenerateMasks(counts: seq<nat>, maxCount: nat, gen: Masks, shape: Shape)
    returns (randomMatrix: seq<Block>, randomPlainList: seq<seq<int>>)
    requires shape.Valid() && MasksOk(gen, shape)
    ensures randomMatrix == Matrix(counts, gen, shape, maxCount, 0) && randomPlainList == Plains(counts, gen, maxCount, 0)
  {
    randomMatrix, randomPlainList := [], [];
    for c := 0 to maxCount
      invariant randomMatrix == Matrix(counts, gen, shape, c, 0) && randomPlainList == Plains(counts, gen, c, 0)
    {
      for b := 0 to |counts|
        invariant randomMatrix == Matrix(counts, gen, shape, c, b) && randomPlainList == Plains(counts, gen, c, b)
      {
        if Padded(counts, c, b) {
          var ones := [];
          for i := 0 to shape.items
            invariant ones == seq(i, _ => ALL_ONE_BLOCK)
          {
            ones := ones + [ALL_ONE_BLOCK];
          }
          randomMatrix := randomMatrix + ones;
        } else {
          assert shape.items * shape.felts <= |gen(c, b)| && Felts(gen(c, b), shape.modulus);
          var blocks := PackItems(gen(c, b), shape);
          randomMatrix := randomMatrix + blocks;
          randomPlainList := randomPlainList + [gen(c, b)];
        }
      }
    }
  }

  ghost predicate Before(c: nat, b: nat, c': nat, b': nat) {
    c < c' || (c == c' && b <= b')
  }

  /** Number of cells before (c, b) in row-major order. */
  function CellIndex(n: nat, c: nat, b: nat): (k: nat)
    ensures k == b + c * n
  {
    ProductNat(c, n);
    b + c * n
  }

  lemma ProductNat(c: nat, n: nat)
    ensures c * n >= 0 && (c > 0 ==> c * n == (c - 1) * n + n)
  {
  }

  ghost predicate NonePaddedBefore(counts: seq<nat>, c: nat, b: nat) {
    forall c', b' :: 0 <= c' && 0 <= b' < |counts| && (c' < c || (c' == c && b' < b)) ==> !Padded(counts, c', b')
  }

  /** The plaintext list falls behind the cell index by the padded cells. */
  lemma {:induction false} PlainsLength(counts: seq<nat>, gen: Masks, c: nat, b: nat)
    requires b <= |counts|
    ensures |Plains(counts, gen, c, b)| <= CellIndex(|counts|, c, b)
    ensures |Plains(counts, gen, c, b)| == CellIndex(|counts|, c, b) <==> NonePaddedBefore(counts, c, b)
    decreases c, b
  {
    ProductNat(c, |counts|);
    if b > 0 {
      PlainsLength(counts, gen, c, b - 1);
      assert NonePaddedBefore(counts, c, b) <==> NonePaddedBefore(counts, c, b - 1) && !Padded(counts, c, b - 1);
    } else if c > 0 {
      PlainsLength(counts, gen, c - 1, |counts|);
      assert NonePaddedBefore(counts, c, b) <==> NonePaddedBefore(counts, c - 1, |counts|);
    }
  }

  lemma {:induction false} PlainsPrefix(counts: seq<nat>, gen: Masks, c: nat, b: nat, c': nat, b': nat)
    requires b <= |counts| && b' <= |counts| && Before(c, b, c', b')
    ensures Plains(counts, gen, c, b) <= Plains(counts, gen, c', b')
    decreases c', b'
  {
    if c == c' && b == b' {
    } else if b' > 0 {
      if Before(c, b, c', b' - 1) {
        PlainsPrefix(counts, gen, c, b, c', b' - 1);
      }
    } else {
      PlainsPrefix(counts, gen, c, b, c' - 1, |counts|);
    }
  }

  /** The plaintext that the evaluation of cache c at bundle index b reads, number b + c * bundle_idx_count, is
      its own mask's place in the list exactly when no padded cell comes before it; in particular always when
      all bundle indices have the same number of caches. */
  lemma PackIndexIff(counts: seq<nat>, maxCount: nat, gen: Masks, c: nat, b: nat)
    requires c < maxCount && b < |counts| && !Padded(counts, c, b)
    ensures |Plains(counts, gen, c, b)| < |Plains(counts, gen, maxCount, 0)|
    ensures Plains(counts, gen, maxCount, 0)[|Plains(counts, gen, c, b)|] == gen(c, b)
    ensures |Plains(counts, gen, c, b)| == CellIndex(|counts|, c, b) <==> NonePaddedBefore(counts, c, b)
    ensures (forall i :: 0 <= i < |counts| ==> counts[i] == maxCount) ==> NonePaddedBefore(counts, c, b)
  {
    PlainsLength(counts, gen, c, b);
    PlainsPrefix(counts, gen, c, b + 1, maxCount, 0);
    var mine := Plains(counts, gen, c, b + 1);
    assert mine == Plains(counts, gen, c, b) + [gen(c, b)];
    assert mine[|mine| - 1] == gen(c, b);
  }

  /** With 1, 2 and 2 caches, the evaluation of cache 1 at bundle index 1 is given the mask of bundle index 2,
      and the evaluation at bundle index 2 reads past the end of the list. */
  lemma PaddingShiftsMasks(gen: Masks)
    ensures var counts, list := [1, 2, 2], Plains([1, 2, 2], gen, 2, 0);
            !Padded(counts, 1, 1) && CellIndex(3, 1, 1) < |list| && list[CellIndex(3, 1, 1)] == gen(1, 2)
            && !Padded(counts, 1, 2) && CellIndex(3, 1, 2) == |list|
  {
    var counts: seq<nat> := [1, 2, 2];
    assert Plains(counts, gen, 0, 1) == Plains(counts, gen, 0, 0) + [gen(0, 0)] == [gen(0, 0)];
    assert Plains(counts, gen, 0, 2) == Plains(counts, gen, 0, 1) + [gen(0, 1)];
    assert Plains(counts, gen, 0, 3) == Plains(counts, gen, 0, 2) + [gen(0, 2)];
    assert Plains(counts, gen, 1, 0) == Plains(counts, gen, 0, 3);
    assert Plains(counts, gen, 1, 1) == Plains(counts, gen, 1, 0);
    assert Plains(counts, gen, 1, 2) == Plains(counts, gen, 1, 1) + [gen(1, 1)];
    assert Plains(counts, gen, 1, 3) == Plains(counts, gen, 1, 2) + [gen(1, 2)];
    assert Plains(counts, gen, 2, 0) == Plains(counts, gen, 1, 3);
  }

  lemma {:induction false} MatrixLength(counts: seq<nat>, gen: Masks, shape: Shape, c: nat, b: nat)
    requires b <= |counts| && Wide(gen, shape)
    ensures |Matrix(counts, gen, shape, c, b)| == CellIndex(|counts|, c, b) * shape.items
    decreases c, b
  {
    hide Wide, Row;
    ProductNat(c, |counts|);
    if b > 0 {
      MatrixLength(counts, gen, shape, c, b - 1);
      NextCell(CellIndex(|counts|, c, b), shape.items);
    } else if c > 0 {
      MatrixLength(counts, gen, shape, c - 1, |counts|);
    }
  }

  lemma NextCell(k: nat, items: nat)
    requires k > 0
    ensures k * items == (k - 1) * items + items
  {
  }

  lemma {:induction false} MatrixPrefix(counts: seq<nat>, gen: Masks, shape: Shape, c: nat, b: nat, c': nat, b': nat)
    requires b <= |counts| && b' <= |counts| && Before(c, b, c', b') && Wide(gen, shape)
    ensures Matrix(counts, gen, shape, c, b) <= Matrix(counts, gen, shape, c', b')
    decreases c', b'
  {
    hide Wide, Row;
    if c == c' && b == b' {
    } else if b' > 0 {
      if Before(c, b, c', b' - 1) {
        MatrixPrefix(counts, gen, shape, c, b, c', b' - 1);
      }
    } else {
      MatrixPrefix(counts, gen, shape, c, b, c' - 1, |counts|);
    }
  }

  /** Row i of cell (c, b) is at offset cell index * items_per_bundle + i. */
  lemma MatrixAt(counts: seq<nat>, maxCount: nat, gen: Masks, shape: Shape, c: nat, b: nat, i: nat)
    requires c < maxCount && b < |counts| && i < shape.items && Wide(gen, shape)
    ensures 0 <= CellIndex(|counts|, c, b) * shape.items + i < |Matrix(counts, gen, shape, maxCount, 0)|
    ensures Matrix(counts, gen, shape, maxCount, 0)[CellIndex(|counts|, c, b) * shape.items + i] == Row(counts, gen, shape, c, b)[i]
  {
    hide Wide, Row;
    MatrixLength(counts, gen, shape, c, b);
    MatrixPrefix(counts, gen, shape, c, b + 1, maxCount, 0);
    var mine := Matrix(counts, gen, shape, c, b + 1);
    assert mine == Matrix(counts, gen, shape, c, b) + Row(counts, gen, shape, c, b);
    var at := |Matrix(counts, gen, shape, c, b)| + i;
    assert mine[at] == Row(counts, gen, shape, c, b)[i];
  }
}
