/** A bin bundle (bin_bundle.cpp): consecutive bins of field elements, in a labeled bundle with label bins
    beside them, an approximate-membership filter per bin, and a cache of polynomials derived from them. */
module BinBundle {
  import opened Exceptions
  import opened ModArith
  import opened Interpolate
  import opened Bins
  import opened BundleState
  import opened Seal
  import BatchedPolyn

  datatype Cache = Cache(
    matching: seq<seq<int>>, batchedMatching: seq<Plaintext>,
    interp: seq<seq<seq<int>>>, batchedInterp: seq<seq<Plaintext>>)

  /** The polynomial vanishes on the bin and nowhere else in the field. */
  ghost predicate Matches(c: seq<int>, bin: seq<int>, p: int)
    requires p > 0
  {
    forall x :: 0 <= x < p ==> (Eval(c, x) % p == 0 <==> x in bin)
  }

  /** Polynomial b is the product of the roots in bin b. */
  ghost predicate MatchingOk(polyns: seq<seq<int>>, items: seq<seq<int>>, p: int)
    requires p > 0
  {
    |polyns| == |items| && forall b :: 0 <= b < |items| ==> MatchingAt(polyns[b], items[b], p)
  }

  ghost predicate MatchingAt(c: seq<int>, bin: seq<int>, p: int)
    requires p > 0
  {
    c == Monic(bin, p) && Matches(c, bin, p)
  }

  /** Polynomial b of a label part takes the label of each element of bin b at that element. */
  ghost predicate InterpOk(polyns: seq<seq<int>>, items: seq<seq<int>>, row: seq<seq<int>>, p: int)
    requires p > 0 && AlignedRow(items, row)
  {
    |polyns| == |items| && forall b :: 0 <= b < |items| ==> Interpolates(polyns[b], items[b], row[b], p)
  }

  /** Parameters of a bundle: those of the encryption scheme and its own. */
  datatype Params = Params(mod: Modulus, slotCount: nat, first: nat, labelSize: nat, maxBinSize: nat, psLowDegree: nat, numBins: nat)

  ghost predicate BatchOk(coeffs: seq<Plaintext>, polyns: seq<seq<int>>, params: Params) {
    |polyns| <= params.slotCount
    && BatchedPolyn.Encoded(coeffs, BatchedPolyn.Batched(polyns, params.slotCount), params.first, params.psLowDegree)
  }

  /** The cache belongs to the data. */
  ghost predicate CacheOk(cache: Cache, items: seq<seq<int>>, labels: LabelBins, params: Params)
    requires params.mod.value > 0 && Aligned(items, labels)
  {
    && MatchingOk(cache.matching, items, params.mod.value)
    && BatchOk(cache.batchedMatching, cache.matching, params)
    && |cache.interp| == |cache.batchedInterp| == |labels|
    && (forall l :: 0 <= l < |labels| ==>
      AlignedRow(items, labels[l]) && InterpOk(cache.interp[l], items, labels[l], params.mod.value)
      && BatchOk(cache.batchedInterp[l], cache.interp[l], params))
  }

  /** Largest size of the n bins from `start` on, after one more element each. */
  function MaxAfter(items: seq<seq<int>>, start: nat, n: nat): (r: nat)
    requires start + n <= |items|
    ensures forall b :: start <= b < start + n ==> |items[b]| + 1 <= r
    ensures n > 0 ==> exists b :: start <= b < start + n && r == |items[b]| + 1
  {
    if n == 0 then 0
    else
      var m := MaxAfter(items, start, n - 1);
      if m < |items[start + n - 1]| + 1 then |items[start + n - 1]| + 1 else m
  }

  class BinBundle {
    const params: Params
    var stripped: bool
    var itemBins: seq<seq<int>>
    var labelBins: LabelBins
    var filters: seq<Filter>
    var cache: Cache
    var cacheInvalid: bool
    const noise: (multiset<int>, int) -> bool

    ghost predicate ParamsOk() {
      && params.mod.Valid() && params.mod.isPrime && 0 < params.numBins <= params.slotCount
      && params.psLowDegree <= params.maxBinSize
    }

    /** What every method keeps: aligned bins, filters and labels, and a valid cache that belongs to them. */
    ghost predicate Valid()
      reads this
    {
      && ParamsOk()
      && (stripped ==> itemBins == [] && labelBins == [] && filters == [])
      && (!stripped ==>
        |itemBins| == params.numBins && |labelBins| == params.labelSize
        && Coherent(itemBins, labelBins, filters, params.mod.value)
        && (!cacheInvalid ==> CacheOk(cache, itemBins, labelBins, params)))
    }

    /** Nothing but the cache flag has changed. */
    twostate predicate SameData()
      reads this
    {
      itemBins == old(itemBins) && labelBins == old(labelBins) && filters == old(filters) && stripped == old(stripped)
    }

    predicate Fits(start: nat, n: nat) {
      start < params.numBins && n <= params.numBins - start
    }

    /** `is_present`: through the filter first. */
    predicate IsPresent(b: nat, x: int)
      requires b < |itemBins| == |filters|
      reads this
    {
      filters[b].Contains(x) && IndexOf(itemBins[b], x) < |itemBins[b]|
    }

    lemma PresentIff(b: nat, x: int)
      requires Valid() && !stripped && b < params.numBins
      ensures IsPresent(b, x) <==> x in itemBins[b]
    {
      assert x in multiset(itemBins[b]) <==> x in itemBins[b];
    }

    /** An empty bundle, or the reason there is none. */
    constructor (params: Params, stripped: bool, noise: (multiset<int>, int) -> bool)
      requires params.mod.Valid() && params.mod.isPrime && params.numBins <= params.slotCount
      requires params.psLowDegree <= params.maxBinSize && params.numBins > 0
      ensures Valid() && this.params == params && this.stripped == stripped && cacheInvalid
      ensures !stripped ==>
        itemBins == seq(params.numBins, _ => []) && View(itemBins, labelBins) == seq(params.numBins, _ => map[])
    {
      this.params := params;
      this.noise := noise;
      this.stripped := stripped;
      cacheInvalid := true;
      cache := Cache([], [], [], []);
      itemBins, labelBins, filters := [], [], [];
      new;
      Clear(stripped);
    }

    method Clear(stripped: bool)
      requires ParamsOk()
      modifies this
      ensures Valid() && this.stripped == stripped && cacheInvalid
      ensures !stripped ==> itemBins == seq(params.numBins, _ => []) && View(itemBins, labelBins) == seq(params.numBins, _ => map[])
    {
      this.stripped := stripped;
      itemBins := [];
      if !stripped {
        itemBins := seq(params.numBins, _ => []);
      }
      labelBins := [];
      if !stripped {
        for i := 0 to params.labelSize
          invariant |labelBins| == i && forall l :: 0 <= l < i ==> labelBins[l] == seq(params.numBins, _ => [])
          invariant this.stripped == stripped && itemBins == seq(params.numBins, _ => [])
        {
          labelBins := labelBins + [seq(params.numBins, _ => [])];
        }
      }
      filters := [];
      if !stripped {
        for i := 0 to params.numBins
          invariant |filters| == i && forall b :: 0 <= b < i ==> filters[b].contents == multiset{}
          invariant this.stripped == stripped && itemBins == seq(params.numBins, _ => [])
          invariant |labelBins| == params.labelSize
          invariant forall l :: 0 <= l < params.labelSize ==> labelBins[l] == seq(params.numBins, _ => [])
        {
          filters := filters + [Filter(multiset{}, noise)];
        }
        EmptyBins(itemBins, labelBins);
      }
      ClearCache();
    }

    method ClearCache()
      modifies this`cache, this`cacheInvalid
      ensures cacheInvalid && cache == Cache([], [], [], [])
    {
      cache := Cache([], [], [], []);
      cacheInvalid := true;
    }

    /** Appends each label part to bin b. */
    method PushLabels(b: nat, v: seq<int>)
      requires |v| == |labelBins| == params.labelSize && forall l :: 0 <= l < |labelBins| ==> b < |labelBins[l]|
      modifies this`labelBins
      ensures PartsPushed(old(labelBins), b, v, labelBins)
    {
      ghost var L := labelBins;
      for l := 0 to params.labelSize
        invariant |labelBins| == |L|
        invariant forall k :: 0 <= k < l ==> labelBins[k] == L[k][b := L[k][b] + [v[k]]]
        invariant forall k :: l <= k < |L| ==> labelBins[k] == L[k]
      {
        labelBins := labelBins[l := labelBins[l][b := labelBins[l][b] + [v[l]]]];
      }
    }

    method ReplaceLabels(b: nat, pos: nat, v: seq<int>)
      requires |v| == |labelBins| == params.labelSize
      requires forall l :: 0 <= l < |labelBins| ==> b < |labelBins[l]| && pos < |labelBins[l][b]|
      modifies this`labelBins
      ensures PartsReplaced(old(labelBins), b, pos, v, labelBins)
    {
      ghost var L := labelBins;
      for l := 0 to params.labelSize
        invariant |labelBins| == |L|
        invariant forall k :: 0 <= k < l ==> labelBins[k] == L[k][b := L[k][b][pos := v[k]]]
        invariant forall k :: l <= k < |L| ==> labelBins[k] == L[k]
      {
        labelBins := labelBins[l := labelBins[l][b := labelBins[l][b][pos := v[l]]]];
      }
    }

    /** Appends the elements to consecutive bins and tells the filters; with labels, the label parts too. */
    method PushAll(items: seq<int>, start: nat, labels: seq<seq<int>>)
      requires Valid() && !stripped && start + |items| <= params.numBins
      requires |labels| == |items| && LabelsSized(labels, params.labelSize)
      modifies this`itemBins, this`labelBins, this`filters, this`cacheInvalid
      ensures Pushed(old(itemBins), start, items, itemBins)
      ensures LabelsPushed(old(labelBins), start, labels, labelBins)
      ensures FiltersMatch(itemBins, filters)
      ensures cacheInvalid == (old(cacheInvalid) || |items| > 0)
    {
      hide PushInv, Coherent, CacheOk, LabelsPushed, FiltersMatch, Pushed;
      ghost var I, L := itemBins, labelBins;
      PushStart(I, L, filters, params.mod.value, start, items, labels);
      var currBinIdx := start;
      for i := 0 to |items|
        invariant currBinIdx == start + i && PushInv(I, L, start, items, labels, i, itemBins, labelBins, filters)
        invariant cacheInvalid == (old(cacheInvalid) || i > 0)
      {
        ghost var I1, L1, F1 := itemBins, labelBins, filters;
        PushRoom(I, L, start, items, labels, i, I1, L1, F1);
        itemBins := itemBins[currBinIdx := itemBins[currBinIdx] + [items[i]]];
        filters := filters[currBinIdx := filters[currBinIdx].Add(items[i])];
        PushLabels(currBinIdx, labels[i]);
        PushStep(I, L, start, items, labels, i, I1, L1, F1, labelBins);
        cacheInvalid := true;
        currBinIdx := currBinIdx + 1;
      }
      PushEnd(I, L, start, items, labels, itemBins, labelBins, filters);
    }

    /** Inserting without labels (only an unlabeled bundle allows it; elements may repeat). The result is the
        size the largest of the bins has or would have, or -1. */
    method MultiInsert(items: seq<int>, start: nat, dryRun: bool) returns (r: Result<int>)
      requires Valid() && Felts(items, params.mod.value)
      modifies this`itemBins, this`labelBins, this`filters, this`cacheInvalid
      ensures Valid() && stripped == old(stripped)
      ensures r.LogicError? <==> stripped || (items != [] && params.labelSize != 0)
      ensures r.LogicError? || r.Ok?
      ensures r.Ok? ==> r.value == if items != [] && Fits(start, |items|) then MaxAfter(old(itemBins), start, |items|) else -1
      ensures r.Ok? && r.value != -1 && !dryRun ==>
        Pushed(old(itemBins), start, items, itemBins) && cacheInvalid
      ensures !r.Ok? || r.value == -1 || dryRun ==> SameData() && cacheInvalid == old(cacheInvalid)
    {
      hide Coherent, CacheOk, MaxAfter, FiltersMatch;
      if stripped {
        return LogicError;
      }
      if items == [] {
        return Ok(-1);
      }
      if params.labelSize != 0 {
        return LogicError;
      }
      if start >= params.numBins || |items| > params.numBins - start {
        return Ok(-1);
      }
      var size := MaxBinSize(items, start);
      if !dryRun {
        ghost var I, L, F := itemBins, labelBins, filters;
        PushAll(items, start, seq(|items|, _ => []));
        UnlabeledInserted(I, L, F, start, items, itemBins, labelBins, filters, params.mod.value);
      }
      return Ok(size);
    }

    /** The running maximum of the would-be bin sizes. */
    method MaxBinSize(items: seq<int>, start: nat) returns (size: nat)
      requires start + |items| <= |itemBins|
      ensures size == MaxAfter(itemBins, start, |items|)
    {
      size := 0;
      for i := 0 to |items|
        invariant size == MaxAfter(itemBins, start, i)
      {
        if size < |itemBins[start + i]| + 1 {
          size := |itemBins[start + i]| + 1;
        }
      }
    }

    /** No element is in its bin yet. */
    method NonePresent(items: seq<int>, start: nat) returns (none: bool)
      requires Valid() && !stripped && start + |items| <= params.numBins
      ensures none <==> Absent(itemBins, start, items)
    {
      for i := 0 to |items|
        invariant forall b :: start <= b < start + i ==> items[b - start] !in itemBins[b]
      {
        PresentIff(start + i, items[i]);
        if IsPresent(start + i, items[i]) {
          assert items[start + i - start] in itemBins[start + i];
          return false;
        }
      }
      return true;
    }

    /** Every element is in its bin. */
    method AllPresent(items: seq<int>, start: nat) returns (all: bool)
      requires Valid() && !stripped && start + |items| <= params.numBins
      ensures all <==> Present(itemBins, start, items)
    {
      for i := 0 to |items|
        invariant forall b :: start <= b < start + i ==> items[b - start] in itemBins[b]
      {
        PresentIff(start + i, items[i]);
        if !IsPresent(start + i, items[i]) {
          assert items[start + i - start] !in itemBins[start + i];
          return false;
        }
      }
      return true;
    }

    /** Inserting with labels: all the elements, or none if one of them is in its bin already. */
    method MultiInsertLabeled(itemLabels: seq<(int, seq<int>)>, start: nat, dryRun: bool) returns (r: Result<int>)
      requires Valid() && Felts(Firsts(itemLabels), params.mod.value) && AllFelts(Seconds(itemLabels), params.mod.value)
      modifies this`itemBins, this`labelBins, this`filters, this`cacheInvalid
      ensures Valid() && stripped == old(stripped)
      ensures r.LogicError? <==> stripped || (itemLabels != [] && params.labelSize == 0)
      ensures r.InvalidArgument? <==>
        !stripped && itemLabels != [] && params.labelSize != 0 && !LabelsSized(Seconds(itemLabels), params.labelSize)
      ensures !r.RuntimeError?
      ensures r.Ok? ==>
        r.value == if itemLabels != [] && Fits(start, |itemLabels|) && Absent(old(itemBins), start, Firsts(itemLabels))
                   then MaxAfter(old(itemBins), start, |itemLabels|) else -1
      ensures r.Ok? && r.value != -1 && !dryRun ==>
        cacheInvalid && Written(old(View(itemBins, labelBins)), start, Firsts(itemLabels), Seconds(itemLabels), View(itemBins, labelBins))
      ensures !r.Ok? || r.value == -1 || dryRun ==> SameData() && cacheInvalid == old(cacheInvalid)
    {
      hide Coherent, CacheOk, Written, View, MaxAfter;
      if stripped {
        return LogicError;
      }
      if itemLabels == [] {
        return Ok(-1);
      }
      if params.labelSize == 0 {
        return LogicError;
      }
      var sized := CheckLabels(Seconds(itemLabels));
      if !sized {
        return InvalidArgument;
      }
      if start >= params.numBins || |itemLabels| > params.numBins - start {
        return Ok(-1);
      }
      var items, labels := Firsts(itemLabels), Seconds(itemLabels);
      var free := NonePresent(items, start);
      if !free {
        return Ok(-1);
      }
      var size := MaxBinSize(items, start);
      if !dryRun {
        ghost var I, L, F := itemBins, labelBins, filters;
        PushAll(items, start, labels);
        Inserted(I, L, start, items, labels, itemBins, labelBins, filters, F, params.mod.value);
      }
      return Ok(size);
    }

    method CheckLabels(labels: seq<seq<int>>) returns (sized: bool)
      ensures sized <==> LabelsSized(labels, params.labelSize)
    {
      for i := 0 to |labels|
        invariant LabelsSized(labels[..i], params.labelSize)
      {
        if |labels[i]| != params.labelSize {
          return false;
        }
      }
      return true;
    }

    /** Overwriting without labels changes nothing, but a present item still makes the cache stale. */
    method TryMultiOverwrite(items: seq<int>, start: nat) returns (r: Result<bool>)
      requires Valid()
      modifies this`cacheInvalid
      ensures Valid() && SameData()
      ensures r == if stripped then LogicError else Ok(items != [] && Fits(start, |items|) && Present(itemBins, start, items))
      ensures cacheInvalid == (old(cacheInvalid) || r == Ok(true))
    {
      if stripped {
        return LogicError;
      }
      if items == [] {
        return Ok(false);
      }
      if start >= params.numBins || |items| > params.numBins - start {
        return Ok(false);
      }
      var here := AllPresent(items, start);
      if here {
        cacheInvalid := true;
      }
      return Ok(here);
    }

    /** The linear search that must succeed after the membership check. */
    method FindPosition(b: nat, x: int) returns (r: Result<nat>)
      requires b < |itemBins|
      ensures r == if x in itemBins[b] then Ok(IndexOf(itemBins[b], x)) else RuntimeError
    {
      var pos := IndexOf(itemBins[b], x);
      if pos == |itemBins[b]| {
        return RuntimeError;
      }
      return Ok(pos);
    }

    /** Overwriting labels: of all the elements, or of none if one of them is missing. */
    method TryMultiOverwriteLabeled(itemLabels: seq<(int, seq<int>)>, start: nat) returns (r: Result<bool>)
      requires Valid() && AllFelts(Seconds(itemLabels), params.mod.value)
      modifies this`labelBins, this`cacheInvalid
      ensures Valid() && stripped == old(stripped) && itemBins == old(itemBins)
      ensures r.LogicError? <==> stripped
      ensures r.InvalidArgument? <==> !stripped && itemLabels != [] && !LabelsSized(Seconds(itemLabels), params.labelSize)
      ensures !r.RuntimeError?
      ensures r.Ok? ==> r.value == (itemLabels != [] && Fits(start, |itemLabels|) && Present(itemBins, start, Firsts(itemLabels)))
      ensures r == Ok(true) ==>
        cacheInvalid && Written(old(View(itemBins, labelBins)), start, Firsts(itemLabels), Seconds(itemLabels), View(itemBins, labelBins))
      ensures r != Ok(true) ==> SameData() && cacheInvalid == old(cacheInvalid)
    {
      hide Coherent, CacheOk, Written, View;
      if stripped {
        return LogicError;
      }
      if itemLabels == [] {
        return Ok(false);
      }
      var sized := CheckLabels(Seconds(itemLabels));
      if !sized {
        return InvalidArgument;
      }
      if start >= params.numBins || |itemLabels| > params.numBins - start {
        return Ok(false);
      }
      var items, labels := Firsts(itemLabels), Seconds(itemLabels);
      var here := AllPresent(items, start);
      if !here {
        return Ok(false);
      }
      ghost var L := labelBins;
      ReplaceAll(items, start, labels);
      Overwritten(itemBins, L, filters, start, items, labels, labelBins, params.mod.value);
      return Ok(true);
    }

    method ReplaceAll(items: seq<int>, start: nat, labels: seq<seq<int>>)
      requires Valid() && !stripped && items != [] && start + |items| <= params.numBins && Present(itemBins, start, items)
      requires |labels| == |items| && LabelsSized(labels, params.labelSize)
      modifies this`labelBins, this`cacheInvalid
      ensures |Places(itemBins, start, items)| == |labels|
      ensures LabelsReplaced(old(labelBins), start, Places(itemBins, start, items), labels, labelBins) && cacheInvalid
    {
      hide ReplaceInv, Coherent, CacheOk, FiltersMatch, LabelsReplaced, Places;
      ghost var L, ps := labelBins, Places(itemBins, start, items);
      ReplaceStart(itemBins, L, filters, params.mod.value, start, items, labels);
      var currBinIdx := start;
      for i := 0 to |items|
        invariant currBinIdx == start + i && (i > 0 ==> cacheInvalid)
        invariant ReplaceInv(itemBins, L, start, items, labels, i, labelBins)
      {
        ghost var L1 := labelBins;
        ReplaceRoom(itemBins, L, start, items, labels, i, L1);
        var found := FindPosition(currBinIdx, items[i]);
        var pos := found.Extract();
        ReplaceLabels(currBinIdx, pos, labels[i]);
        ReplaceStep(itemBins, L, start, items, labels, i, L1, labelBins);
        cacheInvalid := true;
        currBinIdx := currBinIdx + 1;
      }
      ReplaceEnd(itemBins, L, start, items, labels, labelBins);
    }

    /** Where the elements are, or that one is missing. */
    method CollectPlaces(items: seq<int>, start: nat) returns (found: bool, ps: seq<nat>)
      requires Valid() && !stripped && start + |items| <= params.numBins
      ensures found <==> Present(itemBins, start, items)
      ensures found ==> ps == Places(itemBins, start, items)
    {
      ps := [];
      for i := 0 to |items|
        invariant forall b :: start <= b < start + i ==> items[b - start] in itemBins[b]
        invariant |ps| == i && forall k :: 0 <= k < i ==> ps[k] == IndexOf(itemBins[start + k], items[k])
      {
        PresentIff(start + i, items[i]);
        var pos := if filters[start + i].Contains(items[i]) then IndexOf(itemBins[start + i], items[i]) else |itemBins[start + i]|;
        if pos == |itemBins[start + i]| {
          assert items[start + i - start] !in itemBins[start + i];
          return false, [];
        }
        ps := ps + [pos];
      }
      return true, ps;
    }

    method EraseItems(ps: seq<nat>, start: nat)
      requires FiltersMatch(itemBins, filters) && Positions(itemBins, start, ps)
      modifies this`itemBins, this`filters, this`cacheInvalid
      ensures Erased(old(itemBins), start, ps, itemBins) && FiltersMatch(itemBins, filters)
      ensures cacheInvalid == (old(cacheInvalid) || |ps| > 0)
    {
      hide Positions, Erased, FiltersMatch;
      ghost var I := itemBins;
      EraseNone(I, start, ps);
      for i := 0 to |ps|
        invariant Positions(I, start, ps[..i]) && Erased(I, start, ps[..i], itemBins) && FiltersMatch(itemBins, filters)
        invariant cacheInvalid == (old(cacheInvalid) || i > 0)
      {
        EraseStep(I, start, ps, i, itemBins, filters);
        filters := filters[start + i := filters[start + i].Remove(itemBins[start + i][ps[i]])];
        itemBins := itemBins[start + i := RemoveAt(itemBins[start + i], ps[i])];
        cacheInvalid := true;
      }
      assert ps[..|ps|] == ps;
    }

    method EraseLabels(ps: seq<nat>, start: nat)
      requires |labelBins| == params.labelSize && forall l :: 0 <= l < |labelBins| ==> Positions(labelBins[l], start, ps)
      modifies this`labelBins
      ensures LabelsErased(old(labelBins), start, ps, labelBins)
    {
      hide Positions, Erased;
      ghost var L := labelBins;
      for l := 0 to params.labelSize
        invariant |labelBins| == |L|
        invariant forall k :: 0 <= k < l ==> Erased(L[k], start, ps, labelBins[k])
        invariant forall k :: l <= k < |L| ==> labelBins[k] == L[k]
      {
        var row := EraseRow(labelBins[l], ps, start);
        labelBins := labelBins[l := row];
      }
    }

    method EraseRow(bins: seq<seq<int>>, ps: seq<nat>, start: nat) returns (row: seq<seq<int>>)
      requires Positions(bins, start, ps)
      ensures Erased(bins, start, ps, row)
    {
      row := bins;
      for i := 0 to |ps|
        invariant Positions(bins, start, ps[..i]) && Erased(bins, start, ps[..i], row)
      {
        ghost var row1 := row;
        var b := start + i;
        assert row[b] == bins[b];
        assert ps[b - start] < |bins[b]|;
        row := row[b := RemoveAt(row[b], ps[i])];
        EraseNext(bins, start, ps, i, row1, row);
      }
      assert ps[..|ps|] == ps;
    }

    /** Removing: all the elements with their labels, or nothing if one of them is missing. */
    method TryMultiRemove(items: seq<int>, start: nat) returns (r: Result<bool>)
      requires Valid()
      modifies this`itemBins, this`labelBins, this`filters, this`cacheInvalid
      ensures Valid() && stripped == old(stripped)
      ensures r == if stripped then LogicError else Ok(items != [] && Fits(start, |items|) && Present(old(itemBins), start, items))
      ensures r == Ok(true) ==>
        (cacheInvalid && Positions(old(itemBins), start, Places(old(itemBins), start, items))
        && Erased(old(itemBins), start, Places(old(itemBins), start, items), itemBins))
      ensures r == Ok(true) && params.labelSize > 0 ==> Dropped(old(View(itemBins, labelBins)), start, items, View(itemBins, labelBins))
      ensures r != Ok(true) ==> SameData() && cacheInvalid == old(cacheInvalid)
    {
      hide Coherent, CacheOk, Dropped, View, FiltersMatch;
      if stripped {
        return LogicError;
      }
      if items == [] {
        return Ok(false);
      }
      if start >= params.numBins || |items| > params.numBins - start {
        return Ok(false);
      }
      var found, ps := CollectPlaces(items, start);
      if !found {
        return Ok(false);
      }
      ghost var I, L, F := itemBins, labelBins, filters;
      PlacesAre(I, start, items);
      RowsFit(I, L, F, params.mod.value, start, ps);
      EraseItems(ps, start);
      EraseLabels(ps, start);
      if params.labelSize > 0 {
        Removed(I, L, F, start, items, itemBins, labelBins, filters, params.mod.value);
      } else {
        UnlabeledRemoved(I, L, F, start, ps, itemBins, labelBins, filters, params.mod.value);
      }
      return Ok(true);
    }

    /** Looking labels up: part l of element i goes to index |items| * l + i. The buffer is left alone on the
        early failures and emptied when an element is missing. */
    method TryGetMultiLabel(items: seq<int>, start: nat, buffer: seq<int>) returns (r: Result<bool>, labels: seq<int>)
      requires Valid()
      ensures r == if stripped then LogicError else Ok(items != [] && Fits(start, |items|) && Present(itemBins, start, items))
      ensures r != Ok(true) ==> labels == if r == Ok(false) && items != [] && Fits(start, |items|) then [] else buffer
      ensures r == Ok(true) ==>
        (|labels| == |items| * params.labelSize && Fetched(labels, View(itemBins, labelBins), start, items, params.labelSize))
    {
      hide View, Fetched, Coherent, CacheOk;
      if stripped {
        return LogicError, buffer;
      }
      if items == [] {
        return Ok(false), buffer;
      }
      if start >= params.numBins || |items| > params.numBins - start {
        return Ok(false), buffer;
      }
      CoherentParts(itemBins, labelBins, filters, params.mod.value);
      AlignedOf(itemBins, labelBins, filters, params.mod.value);
      NonNegative(|items|, params.labelSize);
      labels := seq(|items| * params.labelSize, _ => 0);
      FetchedNone(labels, View(itemBins, labelBins), start, items, params.labelSize);
      for i := 0 to |items|
        invariant |labels| == |items| * params.labelSize && Present(itemBins, start, items[..i])
        invariant FetchedUpTo(labels, View(itemBins, labelBins), start, items, params.labelSize, i)
      {
        PresentIff(start + i, items[i]);
        var pos := if filters[start + i].Contains(items[i]) then IndexOf(itemBins[start + i], items[i]) else |itemBins[start + i]|;
        if pos == |itemBins[start + i]| {
          assert items[start + i - start] !in itemBins[start + i];
          return Ok(false), [];
        }
        labels := Fetch(items, start, i, labels);
      }
      assert items[..|items|] == items;
      FetchedAll(labels, View(itemBins, labelBins), start, items, params.labelSize);
      return Ok(true), labels;
    }

    /** The label parts of element i, each to its place. */
    method Fetch(items: seq<int>, start: nat, i: nat, labels: seq<int>) returns (labels': seq<int>)
      requires Valid() && !stripped && start + |items| <= params.numBins && i < |items| && items[i] in itemBins[start + i]
      requires |labels| == |items| * params.labelSize
      requires FetchedUpTo(labels, View(itemBins, labelBins), start, items, params.labelSize, i)
      ensures |labels'| == |labels|
      ensures FetchedUpTo(labels', View(itemBins, labelBins), start, items, params.labelSize, i + 1)
    {
      hide FetchedUpTo;
      ghost var part := View(itemBins, labelBins)[start + i][items[i]];
      var pos := IndexOf(itemBins[start + i], items[i]);
      ViewAt(itemBins, labelBins, start + i, items[i]);
      labels' := labels;
      for l := 0 to params.labelSize
        invariant |labels'| == |labels| && |part| == params.labelSize
        invariant PartsFetched(labels', labels, |items|, i, part, l)
      {
        SlotBounds(|items|, l, i, params.labelSize);
        assert AlignedRow(itemBins, labelBins[l]);
        ghost var before := labels';
        labels' := labels'[|items| * l + i := labelBins[l][start + i][pos]];
        PartFetched(labels', before, labels, |items|, i, part, l, params.labelSize);
      }
      FetchedNext(labels, labels', View(itemBins, labelBins), start, items, params.labelSize, i);
    }

    /** Products of roots and interpolations, bin by bin. */
    method RegenPolyns()
      requires Valid() && !stripped && cacheInvalid
      modifies this`cache
      ensures Valid() && MatchingOk(cache.matching, itemBins, params.mod.value) && |cache.interp| == params.labelSize
      ensures forall l :: 0 <= l < params.labelSize ==>
        AlignedRow(itemBins, labelBins[l]) && InterpOk(cache.interp[l], itemBins, labelBins[l], params.mod.value)
    {
      hide Matches, Interpolates;
      var matching: seq<seq<int>> := [];
      for b := 0 to params.numBins
        invariant |matching| == b && forall k :: 0 <= k < b ==> MatchingAt(matching[k], itemBins[k], params.mod.value)
      {
        var fmp := PolynWithRoots(itemBins[b], params.mod.value);
        RootsMatch(itemBins[b], params.mod.value);
        matching := matching + [fmp.Extract().coeffs];
      }
      var interp: seq<seq<seq<int>>> := [];
      for l := 0 to params.labelSize
        invariant |interp| == l
        invariant forall k :: 0 <= k < l ==>
          AlignedRow(itemBins, labelBins[k]) && InterpOk(interp[k], itemBins, labelBins[k], params.mod.value)
      {
        var row := RegenRow(l);
        interp := interp + [row];
      }
      cache := cache.(matching := matching, interp := interp);
    }

    method RegenRow(l: nat) returns (row: seq<seq<int>>)
      requires Valid() && !stripped && l < params.labelSize
      ensures AlignedRow(itemBins, labelBins[l]) && InterpOk(row, itemBins, labelBins[l], params.mod.value)
    {
      hide Interpolates;
      assert AlignedRow(itemBins, labelBins[l]) && AllFelts(labelBins[l], params.mod.value);
      row := [];
      for b := 0 to params.numBins
        invariant |row| == b && forall k :: 0 <= k < b ==> Interpolates(row[k], itemBins[k], labelBins[l][k], params.mod.value)
      {
        var fip := NewtonInterpolatePolyn(itemBins[b], labelBins[l][b], params.mod);
        row := row + [fip.Extract().coeffs];
      }
    }

    /** The batched plaintexts of the polynomials just computed. */
    method RegenPlaintexts()
      requires Valid() && !stripped && cacheInvalid && MatchingOk(cache.matching, itemBins, params.mod.value)
      requires |cache.interp| == params.labelSize && forall l :: 0 <= l < params.labelSize ==>
        AlignedRow(itemBins, labelBins[l]) && InterpOk(cache.interp[l], itemBins, labelBins[l], params.mod.value)
      modifies this`cache
      ensures Valid() && CacheOk(cache, itemBins, labelBins, params)
    {
      hide Coherent, Matches, Interpolates, BatchedPolyn.Encoded, BatchedPolyn.Batched;
      var bmp := new BatchedPolyn.BatchedPlaintextPolyn(cache.matching, params.slotCount, params.first, params.psLowDegree);
      var matching, polyns := bmp.batchedCoeffs, cache.interp;
      var interp: seq<seq<Plaintext>> := [];
      for l := 0 to params.labelSize
        invariant |interp| == l && forall k :: 0 <= k < l ==> BatchOk(interp[k], polyns[k], params)
        invariant cache == old(cache)
      {
        var bip := new BatchedPolyn.BatchedPlaintextPolyn(polyns[l], params.slotCount, params.first, params.psLowDegree);
        interp := interp + [bip.batchedCoeffs];
      }
      AlignedOf(itemBins, labelBins, filters, params.mod.value);
      cache := cache.(batchedMatching := matching, batchedInterp := interp);
    }

    /** Recomputes the cache if it is stale. It always succeeds: points never repeat within a labeled bin. */
    method RegenCache()
      requires Valid() && (stripped ==> !cacheInvalid)
      modifies this`cache, this`cacheInvalid
      ensures Valid() && !cacheInvalid && SameData()
      ensures !stripped ==> CacheOk(cache, itemBins, labelBins, params)
      ensures !old(cacheInvalid) ==> cache == old(cache)
    {
      hide Coherent, MatchingOk, InterpOk, BatchOk;
      if cacheInvalid {
        ClearCache();
        RegenPolyns();
        RegenPlaintexts();
        cacheInvalid := false;
      }
    }

    method GetCache() returns (r: Result<Cache>)
      requires Valid()
      ensures r == if cacheInvalid then LogicError else Ok(cache)
      ensures r.Ok? && !stripped ==> CacheOk(r.value, itemBins, labelBins, params)
    {
      if cacheInvalid {
        return LogicError;
      }
      return Ok(cache);
    }

    method Empty() returns (e: bool)
      requires Valid()
      ensures e <==> forall b :: 0 <= b < |itemBins| ==> itemBins[b] == []
    {
      return forall b :: 0 <= b < |itemBins| ==> itemBins[b] == [];
    }

    /** Drops the data and keeps the batched polynomials that belong to it. */
    method Strip() returns (ghost full: Cache)
      requires Valid() && (stripped ==> !cacheInvalid)
      modifies this
      ensures Valid() && stripped && !cacheInvalid
      ensures old(stripped) ==> full == old(cache)
      ensures !old(stripped) ==> CacheOk(full, old(itemBins), old(labelBins), params)
      ensures cache == full.(matching := [], interp := [])
    {
      hide Coherent, CacheOk;
      RegenCache();
      full := cache;
      stripped := true;
      itemBins := [];
      labelBins := [];
      filters := [];
      cache := cache.(matching := []);
      cache := cache.(interp := []);
    }
  }

  /** After i elements of PushAll. */
  ghost predicate PushInv(I: seq<seq<int>>, L: LabelBins, start: nat, xs: seq<int>, vs: seq<seq<int>>, i: nat,
      items: seq<seq<int>>, labels: LabelBins, filters: seq<Filter>)
  {
    && |vs| == |xs| && i <= |xs| && start + |xs| <= |I| && LabelsSized(vs, |L|)
    && (forall l :: 0 <= l < |L| ==> |L[l]| == |I|)
    && Pushed(I, start, xs[..i], items) && LabelsPushed(L, start, vs[..i], labels) && FiltersMatch(items, filters)
  }

  lemma PushStart(I: seq<seq<int>>, L: LabelBins, filters: seq<Filter>, p: int, start: nat, xs: seq<int>, vs: seq<seq<int>>)
    requires Coherent(I, L, filters, p) && |vs| == |xs| && start + |xs| <= |I| && LabelsSized(vs, |L|)
    ensures PushInv(I, L, start, xs, vs, 0, I, L, filters)
  {
    CoherentParts(I, L, filters, p);
    PushNone(I, L, start, xs, vs);
  }

  lemma PushRoom(I: seq<seq<int>>, L: LabelBins, start: nat, xs: seq<int>, vs: seq<seq<int>>, i: nat,
      items: seq<seq<int>>, labels: LabelBins, filters: seq<Filter>)
    requires PushInv(I, L, start, xs, vs, i, items, labels, filters) && i < |xs|
    ensures |items| == |filters| == |I| && |labels| == |L| == |vs[i]|
    ensures forall l :: 0 <= l < |labels| ==> start + i < |labels[l]|
  {
    PushedRows(L, start, vs[..i], labels, |I|);
  }

  lemma PushStep(I: seq<seq<int>>, L: LabelBins, start: nat, xs: seq<int>, vs: seq<seq<int>>, i: nat,
      items: seq<seq<int>>, labels: LabelBins, filters: seq<Filter>, labels': LabelBins)
    requires PushInv(I, L, start, xs, vs, i, items, labels, filters) && i < |xs|
    requires |items| == |filters| == |I| && |labels| == |vs[i]| && PartsPushed(labels, start + i, vs[i], labels')
    ensures var b := start + i;
            PushInv(I, L, start, xs, vs, i + 1, items[b := items[b] + [xs[i]]], labels', filters[b := filters[b].Add(xs[i])])
  {
    hide Pushed, FiltersMatch, LabelsPushed, PartsPushed;
    var b := start + i;
    FilterAdded(items, filters, b, xs[i]);
    PushNext(I, start, xs, i, items, items[b := items[b] + [xs[i]]]);
    LabelsPushNext(L, start, vs, i, labels, labels');
  }

  lemma PushEnd(I: seq<seq<int>>, L: LabelBins, start: nat, xs: seq<int>, vs: seq<seq<int>>,
      items: seq<seq<int>>, labels: LabelBins, filters: seq<Filter>)
    requires PushInv(I, L, start, xs, vs, |xs|, items, labels, filters)
    ensures Pushed(I, start, xs, items) && LabelsPushed(L, start, vs, labels) && FiltersMatch(items, filters)
  {
    assert xs[..|xs|] == xs && vs[..|xs|] == vs;
  }

  /** After i elements of ReplaceAll. */
  ghost predicate ReplaceInv(items: seq<seq<int>>, L: LabelBins, start: nat, xs: seq<int>, vs: seq<seq<int>>, i: nat, labels: LabelBins)
  {
    && |vs| == |xs| && i <= |xs| && Present(items, start, xs) && LabelsSized(vs, |L|)
    && (forall l :: 0 <= l < |L| ==> Positions(L[l], start, Places(items, start, xs)))
    && LabelsReplaced(L, start, Places(items, start, xs)[..i], vs[..i], labels)
  }

  lemma ReplaceStart(items: seq<seq<int>>, L: LabelBins, filters: seq<Filter>, p: int, start: nat, xs: seq<int>, vs: seq<seq<int>>)
    requires Coherent(items, L, filters, p) && |vs| == |xs| && Present(items, start, xs) && LabelsSized(vs, |L|)
    ensures ReplaceInv(items, L, start, xs, vs, 0, L)
  {
    hide Places;
    PlacesAre(items, start, xs);
    RowsFit(items, L, filters, p, start, Places(items, start, xs));
    ReplaceNone(L, start, Places(items, start, xs), vs);
  }

  lemma ReplaceRoom(items: seq<seq<int>>, L: LabelBins, start: nat, xs: seq<int>, vs: seq<seq<int>>, i: nat, labels: LabelBins)
    requires ReplaceInv(items, L, start, xs, vs, i, labels) && i < |xs|
    ensures |labels| == |L| == |vs[i]| && start + i < |items| && xs[i] in items[start + i]
    ensures forall l :: 0 <= l < |labels| ==> start + i < |labels[l]| && IndexOf(items[start + i], xs[i]) < |labels[l][start + i]|
  {
    assert xs[start + i - start] in items[start + i];
    ReplacedRows(L, start, Places(items, start, xs), i, vs, labels);
  }

  lemma ReplaceStep(items: seq<seq<int>>, L: LabelBins, start: nat, xs: seq<int>, vs: seq<seq<int>>, i: nat,
      labels: LabelBins, labels': LabelBins)
    requires ReplaceInv(items, L, start, xs, vs, i, labels) && i < |xs| && |labels| == |vs[i]|
    requires start + i < |items| && PartsReplaced(labels, start + i, IndexOf(items[start + i], xs[i]), vs[i], labels')
    ensures ReplaceInv(items, L, start, xs, vs, i + 1, labels')
  {
    hide PartsReplaced, LabelsReplaced, IndexOf;
    LabelsReplaceNext(L, start, Places(items, start, xs), vs, i, labels, labels');
  }

  lemma ReplaceEnd(items: seq<seq<int>>, L: LabelBins, start: nat, xs: seq<int>, vs: seq<seq<int>>, labels: LabelBins)
    requires ReplaceInv(items, L, start, xs, vs, |xs|, labels)
    ensures |Places(items, start, xs)| == |vs| && LabelsReplaced(L, start, Places(items, start, xs), vs, labels)
  {
    var ps := Places(items, start, xs);
    assert ps[..|xs|] == ps && vs[..|xs|] == vs;
  }

  lemma EraseNone(I: seq<seq<int>>, start: nat, ps: seq<nat>)
    requires Positions(I, start, ps)
    ensures Positions(I, start, ps[..0]) && Erased(I, start, ps[..0], I)
  {
  }

  /** After i positions of EraseItems. */
  lemma EraseStep(I: seq<seq<int>>, start: nat, ps: seq<nat>, i: nat, items: seq<seq<int>>, filters: seq<Filter>)
    requires Positions(I, start, ps) && i < |ps| && Positions(I, start, ps[..i]) && Erased(I, start, ps[..i], items)
    requires FiltersMatch(items, filters)
    ensures var b := start + i;
            b < |items| == |filters| && ps[i] < |items[b]|
            && (var items', filters' := items[b := RemoveAt(items[b], ps[i])], filters[b := filters[b].Remove(items[b][ps[i]])];
               Positions(I, start, ps[..i + 1]) && Erased(I, start, ps[..i + 1], items') && FiltersMatch(items', filters'))
  {
    var b := start + i;
    assert items[b] == I[b];
    assert ps[b - start] < |I[b]|;
    hide Positions, Erased, FiltersMatch;
    FilterRemoved(items, filters, b, ps[i]);
    EraseNext(I, start, ps, i, items, items[b := RemoveAt(items[b], ps[i])]);
  }

  lemma RowsFit(items: seq<seq<int>>, labels: LabelBins, filters: seq<Filter>, p: int, start: nat, ps: seq<nat>)
    requires Coherent(items, labels, filters, p) && Positions(items, start, ps)
    ensures FiltersMatch(items, filters) && forall l :: 0 <= l < |labels| ==> Positions(labels[l], start, ps)
  {
    forall l | 0 <= l < |labels|
      ensures Positions(labels[l], start, ps)
    {
      RowPositions(items, labels, start, ps, l);
    }
  }

  lemma ReplaceNone(labels: LabelBins, start: nat, ps: seq<nat>, vs: seq<seq<int>>)
    requires |vs| == |ps| && LabelsSized(vs, |labels|) && forall l :: 0 <= l < |labels| ==> Positions(labels[l], start, ps)
    ensures LabelsReplaced(labels, start, ps[..0], vs[..0], labels)
  {
  }

  lemma ReplacedRows(labels: LabelBins, start: nat, ps: seq<nat>, i: nat, vs: seq<seq<int>>, r: LabelBins)
    requires |vs| == |ps| && i < |ps| && LabelsSized(vs, |labels|) && LabelsReplaced(labels, start, ps[..i], vs[..i], r)
    requires forall l :: 0 <= l < |labels| ==> Positions(labels[l], start, ps)
    ensures forall l :: 0 <= l < |r| ==> start + i < |r[l]| && ps[i] < |r[l][start + i]|
  {
    forall l | 0 <= l < |r|
      ensures start + i < |r[l]| && ps[i] < |r[l][start + i]|
    {
      assert Replaced(labels[l], start, ps[..i], Part(vs[..i], l), r[l]);
      var b := start + i;
      assert ps[b - start] < |labels[l][b]|;
    }
  }

  lemma UnlabeledRemoved(items: seq<seq<int>>, labels: LabelBins, filters: seq<Filter>, start: nat, ps: seq<nat>,
      items': seq<seq<int>>, labels': LabelBins, filters': seq<Filter>, p: int)
    requires Coherent(items, labels, filters, p) && |labels| == 0 && |labels'| == 0 && Positions(items, start, ps)
    requires Erased(items, start, ps, items') && FiltersMatch(items', filters')
    ensures Coherent(items', labels', filters', p)
  {
    FeltsErased(items, start, ps, items', p);
  }

  lemma NonNegative(x: int, y: int)
    requires x >= 0 && y >= 0
    ensures x * y >= 0
  {
  }

  /** Index n*l + i is within the buffer, and no two (l, i) share one. */
  lemma SlotBounds(n: nat, l: nat, i: nat, size: nat)
    requires i < n && l < size
    ensures 0 <= n * l + i < n * size
  {
    assert n * (l + 1) <= n * size;
  }

  lemma SlotInjective(n: nat, l: nat, i: nat, l': nat, i': nat)
    requires i < n && i' < n && n * l + i == n * l' + i'
    ensures l == l' && i == i'
  {
    DivModUnique(n * l + i, l, i, n);
    DivModUnique(n * l' + i', l', i', n);
  }

  /** The parts of element i of xs are where the caller expects them. */
  ghost predicate FetchedOne(labels: seq<int>, v: seq<map<int, seq<int>>>, start: nat, xs: seq<int>, size: nat, i: nat)
    requires i < |xs| && |labels| == |xs| * size
  {
    && start + i < |v| && xs[i] in v[start + i] && |v[start + i][xs[i]]| == size
    && PartsAt(labels, |xs|, i, v[start + i][xs[i]])
  }

  ghost predicate PartsAt(labels: seq<int>, n: nat, i: nat, part: seq<int>) {
    forall l :: 0 <= l < |part| ==> PartIs(labels, n, l, i, part[l])
  }

  ghost predicate PartIs(labels: seq<int>, n: nat, l: nat, i: nat, x: int) {
    0 <= n * l + i < |labels| && labels[n * l + i] == x
  }

  ghost predicate FetchedUpTo(labels: seq<int>, v: seq<map<int, seq<int>>>, start: nat, xs: seq<int>, size: nat, n: nat)
    requires n <= |xs| && |labels| == |xs| * size
  {
    forall i :: 0 <= i < n ==> FetchedOne(labels, v, start, xs, size, i)
  }

  /** Every looked-up element is in the map, and its label parts are in the buffer. */
  ghost predicate Fetched(labels: seq<int>, v: seq<map<int, seq<int>>>, start: nat, xs: seq<int>, size: nat)
    requires |labels| == |xs| * size
  {
    FetchedUpTo(labels, v, start, xs, size, |xs|)
  }

  lemma FetchedNone(labels: seq<int>, v: seq<map<int, seq<int>>>, start: nat, xs: seq<int>, size: nat)
    requires |labels| == |xs| * size
    ensures FetchedUpTo(labels, v, start, xs, size, 0)
  {
  }

  lemma FetchedAll(labels: seq<int>, v: seq<map<int, seq<int>>>, start: nat, xs: seq<int>, size: nat)
    requires |labels| == |xs| * size && FetchedUpTo(labels, v, start, xs, size, |xs|)
    ensures Fetched(labels, v, start, xs, size)
  {
  }

  /** The first l parts of element i written over `before`. */
  ghost predicate PartsFetched(labels: seq<int>, before: seq<int>, n: nat, i: nat, part: seq<int>, l: nat)
    requires l <= |part| && i < n
  {
    && |labels| == |before|
    && (forall k :: 0 <= k < l ==> PartIs(labels, n, k, i, part[k]))
    && (forall j, k :: 0 <= j < n && j != i && 0 <= k < |part| && SlotIn(before, n, k, j) ==> SlotSame(labels, before, n, k, j))
  }

  ghost predicate SlotIn(s: seq<int>, n: nat, l: nat, i: nat) { 0 <= n * l + i < |s| }

  ghost predicate SlotSame(s: seq<int>, t: seq<int>, n: nat, l: nat, i: nat) {
    SlotIn(s, n, l, i) && SlotIn(t, n, l, i) && s[n * l + i] == t[n * l + i]
  }

  lemma PartFetched(labels: seq<int>, middle: seq<int>, before: seq<int>, n: nat, i: nat, part: seq<int>, l: nat, size: nat)
    requires l < |part| == size && i < n && |before| == n * size && PartsFetched(middle, before, n, i, part, l)
    requires 0 <= n * l + i < |middle| && labels == middle[n * l + i := part[l]]
    ensures PartsFetched(labels, before, n, i, part, l + 1)
  {
    forall k | 0 <= k < l + 1
      ensures PartIs(labels, n, k, i, part[k])
    {
      if k < l {
        assert PartIs(middle, n, k, i, part[k]);
        if n * k + i == n * l + i {
          SlotInjective(n, k, i, l, i);
        }
      }
    }
    forall j, k | 0 <= j < n && j != i && 0 <= k < |part| && SlotIn(before, n, k, j)
      ensures SlotSame(labels, before, n, k, j)
    {
      assert SlotSame(middle, before, n, k, j);
      if n * k + j == n * l + i {
        SlotInjective(n, k, j, l, i);
      }
    }
  }

  lemma FetchedNext(before: seq<int>, labels: seq<int>, v: seq<map<int, seq<int>>>, start: nat, xs: seq<int>, size: nat, i: nat)
    requires i < |xs| && |before| == |labels| == |xs| * size && FetchedUpTo(before, v, start, xs, size, i)
    requires start + i < |v| && xs[i] in v[start + i] && |v[start + i][xs[i]]| == size
    requires PartsFetched(labels, before, |xs|, i, v[start + i][xs[i]], size)
    ensures FetchedUpTo(labels, v, start, xs, size, i + 1)
  {
    forall j | 0 <= j < i + 1
      ensures FetchedOne(labels, v, start, xs, size, j)
    {
      if j < i {
        assert FetchedOne(before, v, start, xs, size, j);
        PartsStay(before, labels, |xs|, i, v[start + i][xs[i]], j, v[start + j][xs[j]]);
      }
    }
  }

  lemma PartsStay(before: seq<int>, labels: seq<int>, n: nat, i: nat, part: seq<int>, j: nat, other: seq<int>)
    requires i < n && j < n && j != i && PartsFetched(labels, before, n, i, part, |part|) && |other| == |part|
    requires PartsAt(before, n, j, other)
    ensures PartsAt(labels, n, j, other)
  {
    forall l | 0 <= l < |other|
      ensures PartIs(labels, n, l, j, other[l])
    {
      assert PartIs(before, n, l, j, other[l]);
      assert SlotIn(before, n, l, j);
      assert SlotSame(labels, before, n, l, j);
    }
  }

  lemma ViewAt(items: seq<seq<int>>, labels: LabelBins, b: nat, x: int)
    requires Aligned(items, labels) && b < |items| && x in items[b]
    ensures x in View(items, labels)[b] && |View(items, labels)[b][x]| == |labels|
    ensures forall l :: 0 <= l < |labels| ==>
      AlignedRow(items, labels[l]) && View(items, labels)[b][x][l] == labels[l][b][IndexOf(items[b], x)]
  {
    assert View(items, labels)[b] == Bin(items, labels, b);
    forall l | 0 <= l < |labels|
      ensures AlignedRow(items, labels[l]) && View(items, labels)[b][x][l] == labels[l][b][IndexOf(items[b], x)]
    {
      assert LabelAt(Slice(labels, b), IndexOf(items[b], x))[l] == Slice(labels, b)[l][IndexOf(items[b], x)];
    }
  }

  lemma RootsMatch(bin: seq<int>, p: int)
    requires Prime(p) && Felts(bin, p)
    ensures Matches(Monic(bin, p), bin, p)
  {
    forall x | 0 <= x < p
      ensures Eval(Monic(bin, p), x) % p == 0 <==> x in bin
    {
      MonicVanishesIff(bin, p, x);
    }
  }

  lemma AlignedOf(items: seq<seq<int>>, labels: LabelBins, filters: seq<Filter>, p: int)
    requires Coherent(items, labels, filters, p)
    ensures Aligned(items, labels)
  {
  }

  function Firsts(s: seq<(int, seq<int>)>): (r: seq<int>)
    ensures |r| == |s| && forall i :: 0 <= i < |r| ==> r[i] == s[i].0
  {
    seq(|s|, i requires 0 <= i < |s| => s[i].0)
  }

  function Seconds(s: seq<(int, seq<int>)>): (r: seq<seq<int>>)
    ensures |r| == |s| && forall i :: 0 <= i < |r| ==> r[i] == s[i].1
  {
    seq(|s|, i requires 0 <= i < |s| => s[i].1)
  }

  lemma CoherentParts(items: seq<seq<int>>, labels: LabelBins, filters: seq<Filter>, p: int)
    requires Coherent(items, labels, filters, p)
    ensures FiltersMatch(items, filters) && forall l :: 0 <= l < |labels| ==> |labels[l]| == |items|
  {
    forall l | 0 <= l < |labels|
      ensures |labels[l]| == |items|
    {
      assert AlignedRow(items, labels[l]);
    }
  }

  lemma PushNone(items: seq<seq<int>>, labels: LabelBins, start: nat, xs: seq<int>, vs: seq<seq<int>>)
    requires LabelsSized(vs, |labels|)
    ensures Pushed(items, start, xs[..0], items) && LabelsPushed(labels, start, vs[..0], labels)
  {
  }

  lemma PushedRows(labels: LabelBins, start: nat, vs: seq<seq<int>>, r: LabelBins, n: nat)
    requires LabelsSized(vs, |labels|) && LabelsPushed(labels, start, vs, r)
    requires forall l :: 0 <= l < |labels| ==> |labels[l]| == n
    ensures forall l :: 0 <= l < |r| ==> |r[l]| == n
  {
    forall l | 0 <= l < |labels|
      ensures |r[l]| == n
    {
      assert Pushed(labels[l], start, Part(vs, l), r[l]);
    }
  }

  lemma UnlabeledInserted(items: seq<seq<int>>, labels: LabelBins, filters: seq<Filter>, start: nat, xs: seq<int>,
      items': seq<seq<int>>, labels': LabelBins, filters': seq<Filter>, p: int)
    requires Coherent(items, labels, filters, p) && |labels| == 0 && |labels'| == 0 && Felts(xs, p)
    requires Pushed(items, start, xs, items') && FiltersMatch(items', filters')
    ensures Coherent(items', labels', filters', p)
  {
    FeltsPushed(items, start, xs, items', p);
  }

  lemma EmptyBins(items: seq<seq<int>>, labels: LabelBins)
    requires items == seq(|items|, _ => [])
    requires forall l :: 0 <= l < |labels| ==> labels[l] == seq(|items|, _ => [])
    ensures Aligned(items, labels) && AllDistinct(items) && View(items, labels) == seq(|items|, _ => map[])
  {
    forall b | 0 <= b < |items|
      ensures Aligned(items, labels) && Bin(items, labels, b) == map[]
    {
    }
  }
}
