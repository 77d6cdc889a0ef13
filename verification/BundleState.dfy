/** The data of a bin bundle as values: item bins, label bins and filters kept in step, and the effect of
    consecutive insertions, overwrites and removals on what the bundle says. */
module BundleState {
  import opened ModArith
  import opened Interpolate
  import opened Bins

  type LabelBins = seq<seq<seq<int>>>

  /** An approximate-membership filter: what it was given, and whatever else it takes for a member. */
  datatype Filter = Filter(contents: multiset<int>, noise: (multiset<int>, int) -> bool) {
    /** No false negatives; false positives as the filter pleases. */
    predicate Contains(x: int) { x in contents || noise(contents, x) }
    function Add(x: int): Filter { this.(contents := contents + multiset{x}) }
    function Remove(x: int): Filter { this.(contents := contents - multiset{x}) }
  }

  ghost predicate Aligned(items: seq<seq<int>>, labels: LabelBins) {
    forall l :: 0 <= l < |labels| ==> AlignedRow(items, labels[l])
  }

  ghost predicate AlignedRow(items: seq<seq<int>>, row: seq<seq<int>>) {
    |row| == |items| && forall b :: 0 <= b < |items| ==> |row[b]| == |items[b]|
  }

  ghost predicate FiltersMatch(items: seq<seq<int>>, filters: seq<Filter>) {
    |filters| == |items| && forall b :: 0 <= b < |items| ==> filters[b].contents == multiset(items[b])
  }

  ghost predicate AllFelts(bins: seq<seq<int>>, p: int) {
    forall b :: 0 <= b < |bins| ==> Felts(bins[b], p)
  }

  ghost predicate LabelFelts(labels: LabelBins, p: int) {
    forall l :: 0 <= l < |labels| ==> AllFelts(labels[l], p)
  }

  ghost predicate AllDistinct(items: seq<seq<int>>) {
    forall b :: 0 <= b < |items| ==> Distinct(items[b])
  }

  /** What every operation keeps. Bins of a labeled bundle hold distinct elements. */
  ghost predicate Coherent(items: seq<seq<int>>, labels: LabelBins, filters: seq<Filter>, p: int) {
    && Aligned(items, labels) && FiltersMatch(items, filters) && AllFelts(items, p) && LabelFelts(labels, p)
    && (|labels| > 0 ==> AllDistinct(items))
  }

  /** The label parts of bin b. */
  function Slice(labels: LabelBins, b: nat): (r: seq<seq<int>>)
    requires forall l :: 0 <= l < |labels| ==> b < |labels[l]|
    ensures |r| == |labels| && forall l :: 0 <= l < |r| ==> r[l] == labels[l][b]
  {
    seq(|labels|, l requires 0 <= l < |labels| => labels[l][b])
  }

  /** Bin b as a map from elements to labels. */
  ghost function Bin(items: seq<seq<int>>, labels: LabelBins, b: nat): map<int, seq<int>>
    requires Aligned(items, labels) && b < |items|
  {
    BinMap(items[b], Slice(labels, b))
  }

  ghost function View(items: seq<seq<int>>, labels: LabelBins): (v: seq<map<int, seq<int>>>)
    requires Aligned(items, labels)
    ensures |v| == |items| && forall b :: 0 <= b < |v| ==> v[b] == Bin(items, labels, b)
  {
    seq(|items|, b requires 0 <= b < |items| => Bin(items, labels, b))
  }

  /** Element i of xs is in bin start + i. */
  ghost predicate Present(items: seq<seq<int>>, start: nat, xs: seq<int>) {
    start + |xs| <= |items| && forall b :: start <= b < start + |xs| ==> xs[b - start] in items[b]
  }

  ghost predicate Absent(items: seq<seq<int>>, start: nat, xs: seq<int>) {
    start + |xs| <= |items| && forall b :: start <= b < start + |xs| ==> xs[b - start] !in items[b]
  }

  /** Part l of each label. */
  function Part(vs: seq<seq<int>>, l: nat): (r: seq<int>)
    requires forall i :: 0 <= i < |vs| ==> l < |vs[i]|
    ensures |r| == |vs| && forall i :: 0 <= i < |r| ==> r[i] == vs[i][l]
  {
    seq(|vs|, i requires 0 <= i < |vs| => vs[i][l])
  }

  ghost predicate LabelsSized(vs: seq<seq<int>>, n: nat) {
    forall i :: 0 <= i < |vs| ==> |vs[i]| == n
  }

  /** Each element's position in its bin. */
  function Places(items: seq<seq<int>>, start: nat, xs: seq<int>): (r: seq<nat>)
    requires start + |xs| <= |items|
    ensures |r| == |xs| && forall i :: 0 <= i < |r| ==> r[i] == IndexOf(items[start + i], xs[i])
  {
    seq(|xs|, i requires 0 <= i < |xs| => IndexOf(items[start + i], xs[i]))
  }

  /** The bundle after writing label i of vs for element i of xs, bin by bin. */
  ghost predicate Written(v: seq<map<int, seq<int>>>, start: nat, xs: seq<int>, vs: seq<seq<int>>, r: seq<map<int, seq<int>>>)
    requires |vs| == |xs|
  {
    |r| == |v| && forall b :: 0 <= b < |v| ==>
      r[b] == if start <= b < start + |xs| then v[b][xs[b - start] := vs[b - start]] else v[b]
  }

  ghost predicate Dropped(v: seq<map<int, seq<int>>>, start: nat, xs: seq<int>, r: seq<map<int, seq<int>>>) {
    |r| == |v| && forall b :: 0 <= b < |v| ==>
      r[b] == if start <= b < start + |xs| then v[b] - {xs[b - start]} else v[b]
  }

  ghost predicate LabelsPushed(labels: LabelBins, start: nat, vs: seq<seq<int>>, r: LabelBins)
    requires LabelsSized(vs, |labels|)
  {
    |r| == |labels| && forall l :: 0 <= l < |labels| ==> Pushed(labels[l], start, Part(vs, l), r[l])
  }

  /** Bin b after pushing. */
  lemma PushedBin(items: seq<seq<int>>, labels: LabelBins, start: nat, xs: seq<int>, vs: seq<seq<int>>,
      items': seq<seq<int>>, labels': LabelBins, b: nat)
    requires Aligned(items, labels) && |vs| == |xs| && LabelsSized(vs, |labels|) && AllDistinct(items)
    requires Absent(items, start, xs) && b < |items|
    requires Pushed(items, start, xs, items') && LabelsPushed(labels, start, vs, labels')
    ensures AlignedBin(items'[b], Slice(labels', b)) && Distinct(items'[b])
    ensures BinMap(items'[b], Slice(labels', b)) ==
      if start <= b < start + |xs| then Bin(items, labels, b)[xs[b - start] := vs[b - start]] else Bin(items, labels, b)
  {
    hide Distinct, BinMap;
    var rows, rows' := Slice(labels, b), Slice(labels', b);
    if start <= b < start + |xs| {
      var i := b - start;
      forall l | 0 <= l < |labels|
        ensures rows'[l] == rows[l] + [vs[i][l]]
      {
        assert Pushed(labels[l], start, Part(vs, l), labels'[l]);
      }
      MapPush(items[b], rows, xs[i], vs[i], items'[b], rows');
    } else {
      forall l | 0 <= l < |labels|
        ensures rows'[l] == rows[l]
      {
        assert Pushed(labels[l], start, Part(vs, l), labels'[l]);
      }
      assert rows' == rows;
    }
  }

  lemma AlignedFromBins(items: seq<seq<int>>, labels: LabelBins)
    requires forall l :: 0 <= l < |labels| ==> |labels[l]| == |items|
    requires forall b :: 0 <= b < |items| ==> AlignedBin(items[b], Slice(labels, b))
    ensures Aligned(items, labels)
  {
    forall l | 0 <= l < |labels|
      ensures AlignedRow(items, labels[l])
    {
      forall b | 0 <= b < |items|
        ensures |labels[l][b]| == |items[b]|
      {
        assert AlignedBin(items[b], Slice(labels, b));
        assert Slice(labels, b)[l] == labels[l][b];
      }
    }
  }

  /** Appending new elements with their labels writes them into the map, and into nothing else. */
  lemma PushedView(items: seq<seq<int>>, labels: LabelBins, start: nat, xs: seq<int>, vs: seq<seq<int>>,
      items': seq<seq<int>>, labels': LabelBins)
    requires Aligned(items, labels) && |vs| == |xs| && LabelsSized(vs, |labels|) && AllDistinct(items)
    requires Absent(items, start, xs)
    requires Pushed(items, start, xs, items') && LabelsPushed(labels, start, vs, labels')
    ensures Aligned(items', labels') && AllDistinct(items')
    ensures Written(View(items, labels), start, xs, vs, View(items', labels'))
  {
    hide Distinct, BinMap, Absent, Slice;
    forall l | 0 <= l < |labels|
      ensures |labels'[l]| == |items|
    {
      assert Pushed(labels[l], start, Part(vs, l), labels'[l]) && AlignedRow(items, labels[l]);
    }
    forall b | 0 <= b < |items|
      ensures AlignedBin(items'[b], Slice(labels', b)) && Distinct(items'[b])
    {
      PushedBin(items, labels, start, xs, vs, items', labels', b);
    }
    AlignedFromBins(items', labels');
    forall b | 0 <= b < |items|
      ensures Bin(items', labels', b) ==
        if start <= b < start + |xs| then Bin(items, labels, b)[xs[b - start] := vs[b - start]] else Bin(items, labels, b)
    {
      PushedBin(items, labels, start, xs, vs, items', labels', b);
    }
  }

  lemma PlacesAre(items: seq<seq<int>>, start: nat, xs: seq<int>)
    requires Present(items, start, xs)
    ensures Positions(items, start, Places(items, start, xs))
    ensures forall b :: start <= b < start + |xs| ==> Places(items, start, xs)[b - start] == IndexOf(items[b], xs[b - start])
  {
    forall b | start <= b < start + |xs|
      ensures Places(items, start, xs)[b - start] == IndexOf(items[b], xs[b - start])
    {
      var i := b - start;
      assert Places(items, start, xs)[i] == IndexOf(items[start + i], xs[i]);
    }
  }

  lemma RowPositions(items: seq<seq<int>>, labels: LabelBins, start: nat, ps: seq<nat>, l: nat)
    requires Aligned(items, labels) && Positions(items, start, ps) && l < |labels|
    ensures Positions(labels[l], start, ps)
  {
    assert AlignedRow(items, labels[l]);
  }

  ghost predicate LabelsErased(labels: LabelBins, start: nat, ps: seq<nat>, r: LabelBins) {
    |r| == |labels| && forall l :: 0 <= l < |labels| ==>
      Positions(labels[l], start, ps) && Erased(labels[l], start, ps, r[l])
  }

  ghost predicate LabelsReplaced(labels: LabelBins, start: nat, ps: seq<nat>, vs: seq<seq<int>>, r: LabelBins)
    requires |vs| == |ps| && LabelsSized(vs, |labels|)
  {
    |r| == |labels| && forall l :: 0 <= l < |labels| ==>
      Positions(labels[l], start, ps) && Replaced(labels[l], start, ps, Part(vs, l), r[l])
  }

  lemma ErasedBin(items: seq<seq<int>>, labels: LabelBins, start: nat, xs: seq<int>, items': seq<seq<int>>, labels': LabelBins, b: nat)
    requires Aligned(items, labels) && AllDistinct(items) && Present(items, start, xs) && b < |items|
    requires Positions(items, start, Places(items, start, xs)) && Erased(items, start, Places(items, start, xs), items')
    requires LabelsErased(labels, start, Places(items, start, xs), labels')
    ensures AlignedBin(items'[b], Slice(labels', b)) && Distinct(items'[b])
    ensures BinMap(items'[b], Slice(labels', b)) ==
      if start <= b < start + |xs| then Bin(items, labels, b) - {xs[b - start]} else Bin(items, labels, b)
  {
    hide Distinct, BinMap, IndexOf;
    var rows, rows' := Slice(labels, b), Slice(labels', b);
    PlacesAre(items, start, xs);
    if start <= b < start + |xs| {
      forall l | 0 <= l < |labels|
        ensures rows'[l] == RemoveAt(rows[l], IndexOf(items[b], xs[b - start]))
      {
        assert Erased(labels[l], start, Places(items, start, xs), labels'[l]) && AlignedRow(items, labels[l]);
      }
      MapRemove(items[b], rows, xs[b - start], rows');
    } else {
      forall l | 0 <= l < |labels|
        ensures rows'[l] == rows[l]
      {
        assert Erased(labels[l], start, Places(items, start, xs), labels'[l]);
      }
      assert rows' == rows;
    }
  }

  /** Erasing the elements and, at the same positions, their labels takes them out of the map. */
  lemma ErasedView(items: seq<seq<int>>, labels: LabelBins, start: nat, xs: seq<int>, items': seq<seq<int>>, labels': LabelBins)
    requires Aligned(items, labels) && AllDistinct(items) && Present(items, start, xs)
    requires Positions(items, start, Places(items, start, xs)) && Erased(items, start, Places(items, start, xs), items')
    requires LabelsErased(labels, start, Places(items, start, xs), labels')
    ensures Aligned(items', labels') && AllDistinct(items')
    ensures Dropped(View(items, labels), start, xs, View(items', labels'))
  {
    hide Distinct, BinMap, Present, Slice, Places;
    forall l | 0 <= l < |labels|
      ensures |labels'[l]| == |items|
    {
      assert Erased(labels[l], start, Places(items, start, xs), labels'[l]) && AlignedRow(items, labels[l]);
    }
    forall b | 0 <= b < |items|
      ensures AlignedBin(items'[b], Slice(labels', b)) && Distinct(items'[b])
    {
      ErasedBin(items, labels, start, xs, items', labels', b);
    }
    AlignedFromBins(items', labels');
    forall b | 0 <= b < |items|
      ensures Bin(items', labels', b) ==
        if start <= b < start + |xs| then Bin(items, labels, b) - {xs[b - start]} else Bin(items, labels, b)
    {
      ErasedBin(items, labels, start, xs, items', labels', b);
    }
  }

  lemma ReplacedBin(items: seq<seq<int>>, labels: LabelBins, start: nat, xs: seq<int>, vs: seq<seq<int>>, labels': LabelBins, b: nat)
    requires Aligned(items, labels) && Present(items, start, xs) && b < |items| && |vs| == |xs| && LabelsSized(vs, |labels|)
    requires LabelsReplaced(labels, start, Places(items, start, xs), vs, labels')
    ensures AlignedBin(items[b], Slice(labels', b))
    ensures BinMap(items[b], Slice(labels', b)) ==
      if start <= b < start + |xs| then Bin(items, labels, b)[xs[b - start] := vs[b - start]] else Bin(items, labels, b)
  {
    hide BinMap, IndexOf;
    var rows, rows' := Slice(labels, b), Slice(labels', b);
    PlacesAre(items, start, xs);
    if start <= b < start + |xs| {
      var i := b - start;
      forall l | 0 <= l < |labels|
        ensures rows'[l] == rows[l][IndexOf(items[b], xs[i]) := vs[i][l]]
      {
        assert Replaced(labels[l], start, Places(items, start, xs), Part(vs, l), labels'[l]) && AlignedRow(items, labels[l]);
      }
      MapSet(items[b], rows, xs[i], vs[i], rows');
    } else {
      forall l | 0 <= l < |labels|
        ensures rows'[l] == rows[l]
      {
        assert Replaced(labels[l], start, Places(items, start, xs), Part(vs, l), labels'[l]);
      }
      assert rows' == rows;
    }
  }

  /** Replacing labels at the elements' positions writes them into the map. */
  lemma ReplacedView(items: seq<seq<int>>, labels: LabelBins, start: nat, xs: seq<int>, vs: seq<seq<int>>, labels': LabelBins)
    requires Aligned(items, labels) && Present(items, start, xs) && |vs| == |xs| && LabelsSized(vs, |labels|)
    requires LabelsReplaced(labels, start, Places(items, start, xs), vs, labels')
    ensures Aligned(items, labels')
    ensures Written(View(items, labels), start, xs, vs, View(items, labels'))
  {
    hide BinMap, Present, Slice, Places;
    forall l | 0 <= l < |labels|
      ensures |labels'[l]| == |items|
    {
      assert Replaced(labels[l], start, Places(items, start, xs), Part(vs, l), labels'[l]) && AlignedRow(items, labels[l]);
    }
    forall b | 0 <= b < |items|
      ensures AlignedBin(items[b], Slice(labels', b))
    {
      ReplacedBin(items, labels, start, xs, vs, labels', b);
    }
    AlignedFromBins(items, labels');
    forall b | 0 <= b < |items|
      ensures Bin(items, labels', b) ==
        if start <= b < start + |xs| then Bin(items, labels, b)[xs[b - start] := vs[b - start]] else Bin(items, labels, b)
    {
      ReplacedBin(items, labels, start, xs, vs, labels', b);
    }
  }

  // One element of the loops at a time.

  lemma PushNext(bins: seq<seq<int>>, start: nat, xs: seq<int>, i: nat, r: seq<seq<int>>, r': seq<seq<int>>)
    requires i < |xs| && start + |xs| <= |bins| && Pushed(bins, start, xs[..i], r)
    requires r' == r[start + i := r[start + i] + [xs[i]]]
    ensures Pushed(bins, start, xs[..i + 1], r')
  {
  }

  lemma EraseNext(bins: seq<seq<int>>, start: nat, ps: seq<nat>, i: nat, r: seq<seq<int>>, r': seq<seq<int>>)
    requires i < |ps| && Positions(bins, start, ps) && Positions(bins, start, ps[..i]) && Erased(bins, start, ps[..i], r)
    requires ps[i] < |r[start + i]| && r' == r[start + i := RemoveAt(r[start + i], ps[i])]
    ensures Positions(bins, start, ps[..i + 1]) && Erased(bins, start, ps[..i + 1], r')
  {
  }

  lemma ReplaceNext(bins: seq<seq<int>>, start: nat, ps: seq<nat>, xs: seq<int>, i: nat, r: seq<seq<int>>, r': seq<seq<int>>)
    requires i < |ps| == |xs| && Positions(bins, start, ps)
    requires Positions(bins, start, ps[..i]) && Replaced(bins, start, ps[..i], xs[..i], r)
    requires ps[i] < |r[start + i]| && r' == r[start + i := r[start + i][ps[i] := xs[i]]]
    ensures Positions(bins, start, ps[..i + 1]) && Replaced(bins, start, ps[..i + 1], xs[..i + 1], r')
  {
  }

  lemma FilterAdded(items: seq<seq<int>>, filters: seq<Filter>, b: nat, x: int)
    requires FiltersMatch(items, filters) && b < |items|
    ensures FiltersMatch(items[b := items[b] + [x]], filters[b := filters[b].Add(x)])
  {
  }

  lemma FilterRemoved(items: seq<seq<int>>, filters: seq<Filter>, b: nat, pos: nat)
    requires FiltersMatch(items, filters) && b < |items| && pos < |items[b]|
    ensures FiltersMatch(items[b := RemoveAt(items[b], pos)], filters[b := filters[b].Remove(items[b][pos])])
  {
    MultisetRemove(items[b], pos);
  }

  /** One label part appended to bin b in every label bin. */
  ghost predicate PartsPushed(labels: LabelBins, b: nat, v: seq<int>, r: LabelBins)
    requires |v| == |labels|
  {
    |r| == |labels| && forall l :: 0 <= l < |labels| ==>
      b < |labels[l]| && r[l] == labels[l][b := labels[l][b] + [v[l]]]
  }

  lemma LabelsPushNext(labels: LabelBins, start: nat, vs: seq<seq<int>>, i: nat, r: LabelBins, r': LabelBins)
    requires LabelsSized(vs, |labels|) && i < |vs| && LabelsPushed(labels, start, vs[..i], r)
    requires forall l :: 0 <= l < |labels| ==> start + |vs| <= |labels[l]|
    requires PartsPushed(r, start + i, vs[i], r')
    ensures LabelsPushed(labels, start, vs[..i + 1], r')
  {
    forall l | 0 <= l < |labels|
      ensures Pushed(labels[l], start, Part(vs[..i + 1], l), r'[l])
    {
      var xs := Part(vs, l);
      assert Part(vs[..i], l) == xs[..i] && Part(vs[..i + 1], l) == xs[..i + 1];
      PushNext(labels[l], start, xs, i, r[l], r'[l]);
    }
  }

  /** The label parts at a position of bin b replaced. */
  ghost predicate PartsReplaced(labels: LabelBins, b: nat, pos: nat, v: seq<int>, r: LabelBins)
    requires |v| == |labels|
  {
    |r| == |labels| && forall l :: 0 <= l < |labels| ==>
      b < |labels[l]| && pos < |labels[l][b]| && r[l] == labels[l][b := labels[l][b][pos := v[l]]]
  }

  lemma LabelsReplaceNext(labels: LabelBins, start: nat, ps: seq<nat>, vs: seq<seq<int>>, i: nat, r: LabelBins, r': LabelBins)
    requires |vs| == |ps| && LabelsSized(vs, |labels|) && i < |vs| && LabelsReplaced(labels, start, ps[..i], vs[..i], r)
    requires forall l :: 0 <= l < |labels| ==> Positions(labels[l], start, ps)
    requires PartsReplaced(r, start + i, ps[i], vs[i], r')
    ensures LabelsReplaced(labels, start, ps[..i + 1], vs[..i + 1], r')
  {
    forall l | 0 <= l < |labels|
      ensures Positions(labels[l], start, ps[..i + 1]) && Replaced(labels[l], start, ps[..i + 1], Part(vs[..i + 1], l), r'[l])
    {
      var xs := Part(vs, l);
      assert Part(vs[..i], l) == xs[..i] && Part(vs[..i + 1], l) == xs[..i + 1];
      ReplaceNext(labels[l], start, ps, xs, i, r[l], r'[l]);
    }
  }

  lemma FeltsPushed(bins: seq<seq<int>>, start: nat, xs: seq<int>, r: seq<seq<int>>, p: int)
    requires AllFelts(bins, p) && Felts(xs, p) && Pushed(bins, start, xs, r)
    ensures AllFelts(r, p)
  {
  }

  lemma FeltsErased(bins: seq<seq<int>>, start: nat, ps: seq<nat>, r: seq<seq<int>>, p: int)
    requires AllFelts(bins, p) && Positions(bins, start, ps) && Erased(bins, start, ps, r)
    ensures AllFelts(r, p)
  {
  }

  lemma FeltsReplaced(bins: seq<seq<int>>, start: nat, ps: seq<nat>, xs: seq<int>, r: seq<seq<int>>, p: int)
    requires AllFelts(bins, p) && Felts(xs, p) && Positions(bins, start, ps) && |xs| == |ps| && Replaced(bins, start, ps, xs, r)
    ensures AllFelts(r, p)
  {
  }

  /** Inserting keeps the bundle coherent and writes the labels. */
  lemma Inserted(items: seq<seq<int>>, labels: LabelBins, start: nat, xs: seq<int>, vs: seq<seq<int>>,
      items': seq<seq<int>>, labels': LabelBins, filters': seq<Filter>, filters: seq<Filter>, p: int)
    requires Coherent(items, labels, filters, p) && |labels| > 0
    requires |vs| == |xs| && LabelsSized(vs, |labels|) && Felts(xs, p) && AllFelts(vs, p) && Absent(items, start, xs)
    requires Pushed(items, start, xs, items') && LabelsPushed(labels, start, vs, labels') && FiltersMatch(items', filters')
    ensures Coherent(items', labels', filters', p)
    ensures Written(View(items, labels), start, xs, vs, View(items', labels'))
  {
    hide Distinct, View, Written, Aligned, FiltersMatch, AllDistinct, AllFelts, Pushed, Absent;
    PushedView(items, labels, start, xs, vs, items', labels');
    FeltsPushed(items, start, xs, items', p);
    forall l | 0 <= l < |labels'|
      ensures AllFelts(labels'[l], p)
    {
      PartFelts(vs, l, p);
      FeltsPushed(labels[l], start, Part(vs, l), labels'[l], p);
    }
  }

  lemma PartFelts(vs: seq<seq<int>>, l: nat, p: int)
    requires AllFelts(vs, p) && forall i :: 0 <= i < |vs| ==> l < |vs[i]|
    ensures Felts(Part(vs, l), p)
  {
  }

  lemma Overwritten(items: seq<seq<int>>, labels: LabelBins, filters: seq<Filter>, start: nat, xs: seq<int>, vs: seq<seq<int>>,
      labels': LabelBins, p: int)
    requires Coherent(items, labels, filters, p) && Present(items, start, xs)
    requires |vs| == |xs| && LabelsSized(vs, |labels|) && AllFelts(vs, p)
    requires LabelsReplaced(labels, start, Places(items, start, xs), vs, labels')
    ensures Coherent(items, labels', filters, p)
    ensures Written(View(items, labels), start, xs, vs, View(items, labels'))
  {
    hide Distinct, View, Written, Aligned, FiltersMatch, AllDistinct, AllFelts, Replaced, Places;
    ReplacedView(items, labels, start, xs, vs, labels');
    forall l | 0 <= l < |labels'|
      ensures AllFelts(labels'[l], p)
    {
      PartFelts(vs, l, p);
      FeltsReplaced(labels[l], start, Places(items, start, xs), Part(vs, l), labels'[l], p);
    }
  }

  lemma Removed(items: seq<seq<int>>, labels: LabelBins, filters: seq<Filter>, start: nat, xs: seq<int>,
      items': seq<seq<int>>, labels': LabelBins, filters': seq<Filter>, p: int)
    requires Coherent(items, labels, filters, p) && |labels| > 0 && Present(items, start, xs)
    requires Positions(items, start, Places(items, start, xs)) && Erased(items, start, Places(items, start, xs), items')
    requires LabelsErased(labels, start, Places(items, start, xs), labels') && FiltersMatch(items', filters')
    ensures Coherent(items', labels', filters', p)
    ensures Dropped(View(items, labels), start, xs, View(items', labels'))
  {
    hide Distinct, View, Dropped, Aligned, FiltersMatch, AllDistinct, AllFelts, Erased, Present, Places;
    ErasedView(items, labels, start, xs, items', labels');
    FeltsErased(items, start, Places(items, start, xs), items', p);
    forall l | 0 <= l < |labels'|
      ensures AllFelts(labels'[l], p)
    {
      FeltsErased(labels[l], start, Places(items, start, xs), labels'[l], p);
    }
  }
}
