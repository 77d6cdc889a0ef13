/** Bins of field elements with aligned label bins, as values: what appending, overwriting and erasing at the
    position of an element do to the map from elements to labels. */
module Bins {

  import opened ModArith

  /** `std::find`: the first position of x, or the length. */
  function IndexOf(s: seq<int>, x: int): (r: nat)
    ensures r <= |s| && (r < |s| <==> x in s) && (r < |s| ==> s[r] == x)
    ensures forall j :: 0 <= j < r ==> s[j] != x
  {
    if s == [] || s[0] == x then 0 else 1 + IndexOf(s[1..], x)
  }

  lemma IndexOfAt(s: seq<int>, i: nat)
    requires i < |s| && forall j :: 0 <= j < i ==> s[j] != s[i]
    ensures IndexOf(s, s[i]) == i
  {
  }

  function RemoveAt<T>(s: seq<T>, i: nat): (r: seq<T>)
    requires i < |s|
    ensures |r| == |s| - 1
    ensures forall j :: 0 <= j < |r| ==> r[j] == if j < i then s[j] else s[j + 1]
  {
    s[..i] + s[i + 1..]
  }

  /** The label parts at a position. */
  function LabelAt(rows: seq<seq<int>>, i: nat): (r: seq<int>)
    requires forall l :: 0 <= l < |rows| ==> i < |rows[l]|
    ensures |r| == |rows|
    ensures forall l :: 0 <= l < |r| ==> r[l] == rows[l][i]
  {
    seq(|rows|, l requires 0 <= l < |rows| => rows[l][i])
  }

  ghost predicate AlignedBin(items: seq<int>, rows: seq<seq<int>>) {
    forall l :: 0 <= l < |rows| ==> |rows[l]| == |items|
  }

  /** What a bin says: each element with its label. */
  ghost function BinMap(items: seq<int>, rows: seq<seq<int>>): (m: map<int, seq<int>>)
    requires AlignedBin(items, rows)
    ensures forall x :: x in m <==> x in items
  {
    map x | x in items :: LabelAt(rows, IndexOf(items, x))
  }

  lemma MapPush(items: seq<int>, rows: seq<seq<int>>, x: int, v: seq<int>, items': seq<int>, rows': seq<seq<int>>)
    requires AlignedBin(items, rows) && |rows'| == |rows| == |v| && x !in items && Distinct(items)
    requires items' == items + [x] && forall l :: 0 <= l < |v| ==> rows'[l] == rows[l] + [v[l]]
    ensures AlignedBin(items', rows') && Distinct(items') && BinMap(items', rows') == BinMap(items, rows)[x := v]
  {
    IndexOfAt(items', |items|);
    assert LabelAt(rows', |items|) == v;
    forall y | y in items
      ensures LabelAt(rows', IndexOf(items', y)) == LabelAt(rows, IndexOf(items, y))
    {
      IndexOfAt(items', IndexOf(items, y));
    }
  }

  lemma SetKey(items: seq<int>, rows: seq<seq<int>>, x: int, v: seq<int>, rows': seq<seq<int>>, y: int)
    requires AlignedBin(items, rows) && |rows'| == |rows| == |v| && x in items && y in items
    requires forall l :: 0 <= l < |v| ==> rows'[l] == rows[l][IndexOf(items, x) := v[l]]
    ensures AlignedBin(items, rows')
    ensures LabelAt(rows', IndexOf(items, y)) == if y == x then v else LabelAt(rows, IndexOf(items, y))
  {
    var i, j := IndexOf(items, x), IndexOf(items, y);
    assert y != x ==> i != j;
    hide IndexOf;
    if y == x {
      assert LabelAt(rows', i) == v;
    } else {
      assert LabelAt(rows', j) == LabelAt(rows, j);
    }
  }

  lemma MapSet(items: seq<int>, rows: seq<seq<int>>, x: int, v: seq<int>, rows': seq<seq<int>>)
    requires AlignedBin(items, rows) && |rows'| == |rows| == |v| && x in items
    requires forall l :: 0 <= l < |v| ==> rows'[l] == rows[l][IndexOf(items, x) := v[l]]
    ensures AlignedBin(items, rows') && BinMap(items, rows') == BinMap(items, rows)[x := v]
  {
    hide IndexOf, LabelAt;
    assert AlignedBin(items, rows');
    forall y | y in items
      ensures BinMap(items, rows')[y] == BinMap(items, rows)[x := v][y]
    {
      SetKey(items, rows, x, v, rows', y);
    }
  }

  lemma RemovedDistinct(items: seq<int>, x: int)
    requires x in items && Distinct(items)
    ensures Distinct(RemoveAt(items, IndexOf(items, x))) && x !in RemoveAt(items, IndexOf(items, x))
  {
  }

  /** Where the other elements go. */
  lemma Shifted(items: seq<int>, x: int, y: int)
    requires x in items && y in items && x != y && Distinct(items)
    ensures var i, j := IndexOf(items, x), IndexOf(items, y);
            i != j && y in RemoveAt(items, i) && IndexOf(RemoveAt(items, i), y) == if j < i then j else j - 1
  {
    var i, j := IndexOf(items, x), IndexOf(items, y);
    hide IndexOf;
    var k := if j < i then j else j - 1;
    var s := RemoveAt(items, i);
    assert s[k] == y;
    IndexOfAt(s, k);
  }

  lemma NotNew(items: seq<int>, x: int, y: int)
    requires x in items && y in RemoveAt(items, IndexOf(items, x))
    ensures y in items
  {
  }

  lemma RemoveKey(items: seq<int>, rows: seq<seq<int>>, x: int, rows': seq<seq<int>>, y: int)
    requires AlignedBin(items, rows) && |rows'| == |rows| && x in items && y in items && y != x && Distinct(items)
    requires forall l :: 0 <= l < |rows| ==> rows'[l] == RemoveAt(rows[l], IndexOf(items, x))
    ensures var items' := RemoveAt(items, IndexOf(items, x));
            AlignedBin(items', rows') && y in items' && LabelAt(rows', IndexOf(items', y)) == LabelAt(rows, IndexOf(items, y))
  {
    hide IndexOf;
    Shifted(items, x, y);
    var i, j := IndexOf(items, x), IndexOf(items, y);
    assert LabelAt(rows', if j < i then j else j - 1) == LabelAt(rows, j);
  }

  lemma MapRemove(items: seq<int>, rows: seq<seq<int>>, x: int, rows': seq<seq<int>>)
    requires AlignedBin(items, rows) && |rows'| == |rows| && x in items && Distinct(items)
    requires forall l :: 0 <= l < |rows| ==> rows'[l] == RemoveAt(rows[l], IndexOf(items, x))
    ensures var items' := RemoveAt(items, IndexOf(items, x));
            AlignedBin(items', rows') && Distinct(items') && BinMap(items', rows') == BinMap(items, rows) - {x}
  {
    hide IndexOf, LabelAt, Distinct, RemoveAt;
    var items' := RemoveAt(items, IndexOf(items, x));
    RemovedDistinct(items, x);
    StillAligned(items, rows, x, rows');
    forall y | y in items && y != x
      ensures y in items' && BinMap(items', rows')[y] == BinMap(items, rows)[y]
    {
      RemoveKey(items, rows, x, rows', y);
    }
    forall y | y in items'
      ensures y in items && y != x
    {
      NotNew(items, x, y);
    }
  }

  lemma StillAligned(items: seq<int>, rows: seq<seq<int>>, x: int, rows': seq<seq<int>>)
    requires AlignedBin(items, rows) && |rows'| == |rows| && x in items
    requires forall l :: 0 <= l < |rows| ==> rows'[l] == RemoveAt(rows[l], IndexOf(items, x))
    ensures AlignedBin(RemoveAt(items, IndexOf(items, x)), rows')
  {
  }

  lemma MultisetRemove(s: seq<int>, i: nat)
    requires i < |s|
    ensures multiset(RemoveAt(s, i)) == multiset(s) - multiset{s[i]}
  {
    assert s == s[..i] + [s[i]] + s[i + 1..];
  }

  // Whole bundles: consecutive bins, one element each.

  ghost predicate Pushed(bins: seq<seq<int>>, start: nat, xs: seq<int>, r: seq<seq<int>>) {
    |r| == |bins| && forall b :: 0 <= b < |bins| ==>
      r[b] == if start <= b < start + |xs| then bins[b] + [xs[b - start]] else bins[b]
  }

  /** One position in each of the bins from `start` on. */
  ghost predicate Positions(bins: seq<seq<int>>, start: nat, ps: seq<nat>) {
    start + |ps| <= |bins| && forall b :: start <= b < start + |ps| ==> ps[b - start] < |bins[b]|
  }

  ghost predicate Erased(bins: seq<seq<int>>, start: nat, ps: seq<nat>, r: seq<seq<int>>)
    requires Positions(bins, start, ps)
  {
    |r| == |bins| && forall b :: 0 <= b < |bins| ==>
      r[b] == if start <= b < start + |ps| then RemoveAt(bins[b], ps[b - start]) else bins[b]
  }

  ghost predicate Replaced(bins: seq<seq<int>>, start: nat, ps: seq<nat>, xs: seq<int>, r: seq<seq<int>>)
    requires Positions(bins, start, ps) && |xs| == |ps|
  {
    |r| == |bins| && forall b :: 0 <= b < |bins| ==>
      r[b] == if start <= b < start + |ps| then bins[b][ps[b - start] := xs[b - start]] else bins[b]
  }
}
