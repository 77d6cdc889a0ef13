/** Inserting unlabeled items into the bundle sets of the database (`insert_or_assign_worker` and
    `dispatch_insert_or_assign` of receiver_db.cpp, overwriting off): one worker per bundle index. A bundle is
    the value its own methods' contracts determine: its bins. */
module DbInsert {
  import opened Exceptions
  import opened Bins
  import ModArith
  import BB = BinBundle

  type Bundle = seq<seq<int>>

  /** An item in its algebraic form, one felt per bin, and its cuckoo index. */
  datatype Entry = Entry(item: seq<int>, cuckooIdx: nat)

  datatype Params = Params(binsPerBundle: nat, maxBinSize: nat)

  /** `unpack_cuckoo_idx`: the bin within a bundle, and the bundle index. */
  function UnpackCuckooIdx(cuckooIdx: nat, binsPerBundle: nat): (r: (nat, nat))
    requires binsPerBundle > 0
    ensures r.0 < binsPerBundle && cuckooIdx == r.1 * binsPerBundle + r.0
  {
    var binIdx := cuckooIdx % binsPerBundle;
    ModArith.DivModUnique(cuckooIdx - binIdx, cuckooIdx / binsPerBundle, 0, binsPerBundle);
    (binIdx, (cuckooIdx - binIdx) / binsPerBundle)
  }

  predicate Fits(p: Params, bin: nat, item: seq<int>) {
    item != [] && bin < p.binsPerBundle && |item| <= p.binsPerBundle - bin
  }

  /** A bundle with one more item, felt i in bin `bin` + i. */
  function PushItem(bundle: Bundle, bin: nat, item: seq<int>): (r: Bundle)
    ensures Pushed(bundle, bin, item, r)
  {
    seq(|bundle|, b requires 0 <= b < |bundle| => if bin <= b < bin + |item| then bundle[b] + [item[b - bin]] else bundle[b])
  }

  /** What a dry run reports: the size the largest bin would have, or -1. */
  function DryRun(p: Params, bundle: Bundle, bin: nat, item: seq<int>): int
    requires |bundle| == p.binsPerBundle
  {
    if Fits(p, bin, item) then BB.MaxAfter(bundle, bin, |item|) else -1
  }

  predicate HasRoom(p: Params, bundle: Bundle, bin: nat, item: seq<int>)
    requires |bundle| == p.binsPerBundle
  {
    var largest := DryRun(p, bundle, bin, item);
    largest > 0 && largest < p.maxBinSize
  }

  ghost predicate Sized(p: Params, bundles: seq<Bundle>) {
    forall k :: 0 <= k < |bundles| ==> |bundles[k]| == p.binsPerBundle
  }

  function EmptyBundle(p: Params): (r: Bundle)
    ensures |r| == p.binsPerBundle && forall b :: 0 <= b < |r| ==> r[b] == []
  {
    seq(p.binsPerBundle, _ => [])
  }

  /** The last of the first n bundles with room, or -1. */
  function LastWithRoom(p: Params, bundles: seq<Bundle>, bin: nat, item: seq<int>, n: nat): (k: int)
    requires n <= |bundles| && Sized(p, bundles)
    ensures -1 <= k < n && (k >= 0 ==> HasRoom(p, bundles[k], bin, item))
    ensures forall i :: k < i < n ==> !HasRoom(p, bundles[i], bin, item)
  {
    if n == 0 then -1
    else if HasRoom(p, bundles[n - 1], bin, item) then n - 1
    else LastWithRoom(p, bundles, bin, item, n - 1)
  }

  /** Into the last bundle with room, or into a new one; an item that does not fit a bundle fits nowhere. */
  function AddItem(p: Params, bundles: seq<Bundle>, bin: nat, item: seq<int>): Result<seq<Bundle>>
    requires Sized(p, bundles)
  {
    var k := LastWithRoom(p, bundles, bin, item, |bundles|);
    if k >= 0 then Ok(bundles[k := PushItem(bundles[k], bin, item)])
    else if Fits(p, bin, item) then Ok(bundles + [PushItem(EmptyBundle(p), bin, item)])
    else LogicError
  }

  predicate IsOurs(p: Params, e: Entry, bundleIndex: nat)
    requires p.binsPerBundle > 0
  {
    UnpackCuckooIdx(e.cuckooIdx, p.binsPerBundle).1 == bundleIndex
  }

  function BinOf(p: Params, e: Entry): nat
    requires p.binsPerBundle > 0
  {
    UnpackCuckooIdx(e.cuckooIdx, p.binsPerBundle).0
  }

  lemma AddItemSized(p: Params, bundles: seq<Bundle>, bin: nat, item: seq<int>)
    requires Sized(p, bundles) && AddItem(p, bundles, bin, item).Ok?
    ensures Sized(p, AddItem(p, bundles, bin, item).value)
  {
  }

  /** The entries of this bundle index in order, from a set of bundles. */
  function Process(p: Params, data: seq<Entry>, bundleIndex: nat, bundles: seq<Bundle>): (r: Result<seq<Bundle>>)
    requires p.binsPerBundle > 0 && Sized(p, bundles)
    ensures r.Ok? ==> Sized(p, r.value)
  {
    if data == [] then Ok(bundles)
    else
      var e := data[|data| - 1];
      var before := Process(p, data[..|data| - 1], bundleIndex, bundles);
      if !before.Ok? || !IsOurs(p, e, bundleIndex) then before
      else
        var after := AddItem(p, before.value, BinOf(p, e), e.item);
        if after.Ok? then
          AddItemSized(p, before.value, BinOf(p, e), e.item);
          after
        else after
  }

  /** One worker. It changes the bundle set of its own index only. */
  method InsertOrAssignWorker(p: Params, data: seq<Entry>, binBundles: array<seq<Bundle>>, bundleIndex: nat) returns (r: Result<bool>)
    requires p.binsPerBundle > 0 && bundleIndex < binBundles.Length && Sized(p, binBundles[bundleIndex])
    modifies binBundles
    ensures forall i :: 0 <= i < binBundles.Length && i != bundleIndex ==> binBundles[i] == old(binBundles[i])
    ensures var result := Process(p, data, bundleIndex, old(binBundles[bundleIndex]));
            if result.Ok? then r == Ok(true) && binBundles[bundleIndex] == result.value else r == LogicError
  {
    hide AddItem, PushItem, HasRoom, LastWithRoom;
    ghost var start := binBundles[bundleIndex];
    for n := 0 to |data|
      invariant forall i :: 0 <= i < binBundles.Length && i != bundleIndex ==> binBundles[i] == old(binBundles[i])
      invariant Process(p, data[..n], bundleIndex, start) == Ok(binBundles[bundleIndex])
    {
      var e := data[n];
      assert data[..n + 1][..n] == data[..n];
      var (binIdx, bundleIdx) := UnpackCuckooIdx(e.cuckooIdx, p.binsPerBundle);
      if bundleIdx != bundleIndex {
        continue;
      }
      var added := InsertEntry(p, binBundles[bundleIdx], binIdx, e.item);
      if added.LogicError? {
        FailureStays(p, data, n + 1, bundleIndex, start);
        return LogicError;
      }
      binBundles[bundleIdx] := added.value;
    }
    assert data[..|data|] == data;
    return Ok(true);
  }

  /** The search from the newest bundle back, and the new bundle when every bundle is full there. */
  method InsertEntry(p: Params, bundles: seq<Bundle>, binIdx: nat, item: seq<int>) returns (r: Result<seq<Bundle>>)
    requires Sized(p, bundles)
    ensures r == AddItem(p, bundles, binIdx, item)
    ensures r.Ok? || r.LogicError?
  {
    hide HasRoom, PushItem;
    var k := |bundles|;
    while k > 0
      invariant 0 <= k <= |bundles|
      invariant LastWithRoom(p, bundles, binIdx, item, |bundles|) == LastWithRoom(p, bundles, binIdx, item, k)
    {
      k := k - 1;
      if HasRoom(p, bundles[k], binIdx, item) {
        return Ok(bundles[k := PushItem(bundles[k], binIdx, item)]);
      }
    }
    var newBinBundle := EmptyBundle(p);
    if !Fits(p, binIdx, item) {
      return LogicError;
    }
    return Ok(bundles + [PushItem(newBinBundle, binIdx, item)]);
  }

  lemma {:induction false} FailureStays(p: Params, data: seq<Entry>, n: nat, bundleIndex: nat, bundles: seq<Bundle>)
    requires p.binsPerBundle > 0 && Sized(p, bundles) && n <= |data| && Process(p, data[..n], bundleIndex, bundles).LogicError?
    ensures Process(p, data, bundleIndex, bundles).LogicError?
  {
    hide AddItem, UnpackCuckooIdx;
    if n < |data| {
      var m := |data| - 1;
      assert data[..m][..n] == data[..n];
      FailureStays(p, data[..m], n, bundleIndex, bundles);
    } else {
      assert data[..n] == data;
    }
  }

  // ---------- What the insertions do ----------

  /** All felts in bin b, over the bundles. */
  ghost function Total(bundles: seq<Bundle>, b: nat): multiset<int> {
    if bundles == [] then multiset{}
    else
      var last := bundles[|bundles| - 1];
      Total(bundles[..|bundles| - 1], b) + if b < |last| then multiset(last[b]) else multiset{}
  }

  /** The felt an item puts into bin b. */
  ghost function FeltAt(bin: nat, item: seq<int>, b: nat): multiset<int> {
    if bin <= b < bin + |item| then multiset{item[b - bin]} else multiset{}
  }

  /** All felts the entries of a bundle index put into bin b. */
  ghost function Inserted(p: Params, data: seq<Entry>, bundleIndex: nat, b: nat): multiset<int>
    requires p.binsPerBundle > 0
  {
    if data == [] then multiset{}
    else
      var e := data[|data| - 1];
      Inserted(p, data[..|data| - 1], bundleIndex, b)
      + if IsOurs(p, e, bundleIndex) then FeltAt(BinOf(p, e), e.item, b) else multiset{}
  }

  ghost predicate BelowMax(p: Params, bundles: seq<Bundle>) {
    forall k :: 0 <= k < |bundles| ==> BundleBelow(p, bundles[k])
  }

  ghost predicate BundleBelow(p: Params, bundle: Bundle) {
    forall b :: 0 <= b < |bundle| ==> |bundle[b]| < p.maxBinSize
  }

  lemma AddItemOkIff(p: Params, bundles: seq<Bundle>, bin: nat, item: seq<int>)
    requires Sized(p, bundles)
    ensures AddItem(p, bundles, bin, item).Ok? <==> Fits(p, bin, item)
    ensures AddItem(p, bundles, bin, item).Ok? || AddItem(p, bundles, bin, item).LogicError?
  {
  }

  lemma RoomKeepsBelow(p: Params, bundle: Bundle, bin: nat, item: seq<int>)
    requires |bundle| == p.binsPerBundle && HasRoom(p, bundle, bin, item) && BundleBelow(p, bundle)
    ensures BundleBelow(p, PushItem(bundle, bin, item))
  {
  }

  lemma NewBundleBelow(p: Params, bin: nat, item: seq<int>)
    requires p.maxBinSize >= 2
    ensures BundleBelow(p, PushItem(EmptyBundle(p), bin, item))
  {
  }

  lemma {:induction false} TotalUpdate(bundles: seq<Bundle>, k: nat, bundle: Bundle, b: nat, extra: multiset<int>)
    requires k < |bundles| && b < |bundles[k]| && b < |bundle| && multiset(bundle[b]) == multiset(bundles[k][b]) + extra
    ensures Total(bundles[k := bundle], b) == Total(bundles, b) + extra
  {
    var n := |bundles| - 1;
    if k == n {
      assert bundles[k := bundle][..n] == bundles[..n];
    } else {
      assert bundles[k := bundle][..n] == bundles[..n][k := bundle];
      TotalUpdate(bundles[..n], k, bundle, b, extra);
    }
  }

  lemma TotalAppend(bundles: seq<Bundle>, bundle: Bundle, b: nat)
    requires b < |bundle|
    ensures Total(bundles + [bundle], b) == Total(bundles, b) + multiset(bundle[b])
  {
    assert (bundles + [bundle])[..|bundles|] == bundles;
  }

  lemma PushedFelt(bundle: Bundle, bin: nat, item: seq<int>, b: nat)
    requires b < |bundle|
    ensures multiset(PushItem(bundle, bin, item)[b]) == multiset(bundle[b]) + FeltAt(bin, item, b)
  {
  }

  /** The item has gone whole into one bundle, an old one or a new one, and the others are as before. */
  ghost predicate LandedAt(p: Params, bundles: seq<Bundle>, bin: nat, item: seq<int>, bundles': seq<Bundle>, k: nat) {
    if k < |bundles| then bundles' == bundles[k := PushItem(bundles[k], bin, item)]
    else k == |bundles| && bundles' == bundles + [PushItem(EmptyBundle(p), bin, item)]
  }

  lemma AddItemEffect(p: Params, bundles: seq<Bundle>, bin: nat, item: seq<int>) returns (k: nat)
    requires Sized(p, bundles) && BelowMax(p, bundles) && p.maxBinSize >= 2 && Fits(p, bin, item)
    ensures AddItem(p, bundles, bin, item).Ok?
    ensures var bundles' := AddItem(p, bundles, bin, item).value;
            LandedAt(p, bundles, bin, item, bundles', k) && BelowMax(p, bundles')
            && (forall b :: 0 <= b < p.binsPerBundle ==> Total(bundles', b) == Total(bundles, b) + FeltAt(bin, item, b))
  {
    hide BundleBelow, PushItem, HasRoom, Total;
    var found := LastWithRoom(p, bundles, bin, item, |bundles|);
    k := if found >= 0 then found else |bundles|;
    if found >= 0 {
      RoomKeepsBelow(p, bundles[k], bin, item);
    } else {
      NewBundleBelow(p, bin, item);
    }
    var bundles' := AddItem(p, bundles, bin, item).value;
    forall b | 0 <= b < p.binsPerBundle
      ensures Total(bundles', b) == Total(bundles, b) + FeltAt(bin, item, b)
    {
      if found >= 0 {
        PushedFelt(bundles[k], bin, item, b);
        TotalUpdate(bundles, k, PushItem(bundles[k], bin, item), b, FeltAt(bin, item, b));
      } else {
        PushedFelt(EmptyBundle(p), bin, item, b);
        TotalAppend(bundles, PushItem(EmptyBundle(p), bin, item), b);
      }
    }
  }

  /** The entries of this bundle index can all be placed. */
  ghost predicate AllFit(p: Params, data: seq<Entry>, bundleIndex: nat)
    requires p.binsPerBundle > 0
  {
    forall i :: 0 <= i < |data| && IsOurs(p, data[i], bundleIndex) ==> Fits(p, BinOf(p, data[i]), data[i].item)
  }

  /** A worker throws exactly when one of its items is empty or would cross the end of its bundle. */
  lemma {:induction false} WorkerThrowsIff(p: Params, data: seq<Entry>, bundleIndex: nat, bundles: seq<Bundle>)
    requires p.binsPerBundle > 0 && Sized(p, bundles)
    ensures Process(p, data, bundleIndex, bundles).Ok? <==> AllFit(p, data, bundleIndex)
    ensures Process(p, data, bundleIndex, bundles).Ok? || Process(p, data, bundleIndex, bundles).LogicError?
  {
    hide AddItem, Fits, IsOurs, BinOf;
    if data != [] {
      var n := |data| - 1;
      WorkerThrowsIff(p, data[..n], bundleIndex, bundles);
      var before := Process(p, data[..n], bundleIndex, bundles);
      if before.Ok? {
        AddItemOkIff(p, before.value, BinOf(p, data[n]), data[n].item);
      }
      assert AllFit(p, data, bundleIndex) <==>
        AllFit(p, data[..n], bundleIndex) && (IsOurs(p, data[n], bundleIndex) ==> Fits(p, BinOf(p, data[n]), data[n].item));
    }
  }

  /** Exactly the inserted felts are added to every bin, and every bin stays below the limit. */
  lemma {:induction false} ProcessEffect(p: Params, data: seq<Entry>, bundleIndex: nat, bundles: seq<Bundle>)
    requires p.binsPerBundle > 0 && Sized(p, bundles) && BelowMax(p, bundles) && p.maxBinSize >= 2 && AllFit(p, data, bundleIndex)
    ensures Process(p, data, bundleIndex, bundles).Ok?
    ensures var bundles' := Process(p, data, bundleIndex, bundles).value;
            BelowMax(p, bundles')
            && (forall b :: 0 <= b < p.binsPerBundle ==> Total(bundles', b) == Total(bundles, b) + Inserted(p, data, bundleIndex, b))
  {
    hide AddItem, Fits, IsOurs, BinOf, FeltAt, Total, LandedAt, BundleBelow;
    WorkerThrowsIff(p, data, bundleIndex, bundles);
    if data != [] {
      var n := |data| - 1;
      ProcessEffect(p, data[..n], bundleIndex, bundles);
      var before := Process(p, data[..n], bundleIndex, bundles).value;
      if IsOurs(p, data[n], bundleIndex) {
        var k := AddItemEffect(p, before, BinOf(p, data[n]), data[n].item);
      }
    }
  }

  // ---------- All workers together ----------

  /** The bundle sets, and how far the worker of each started bundle index has come. */
  datatype State = State(sets: seq<seq<Bundle>>, pos: seq<nat>)

  /** Worker w, for bundle index indices[w], takes its next entry. */
  ghost predicate Step(p: Params, data: seq<Entry>, indices: seq<nat>, s: State, s': State, w: nat)
    requires p.binsPerBundle > 0
  {
    && w < |indices| == |s.pos| && s.pos[w] < |data| && indices[w] < |s.sets|
    && s'.pos == s.pos[w := s.pos[w] + 1]
    && var e := data[s.pos[w]];
       if IsOurs(p, e, indices[w]) then
         Sized(p, s.sets[indices[w]]) && AddItem(p, s.sets[indices[w]], BinOf(p, e), e.item).Ok?
         && s'.sets == s.sets[indices[w] := AddItem(p, s.sets[indices[w]], BinOf(p, e), e.item).value]
       else s'.sets == s.sets
  }

  ghost predicate Run(p: Params, data: seq<Entry>, indices: seq<nat>, states: seq<State>, movers: seq<nat>)
    requires p.binsPerBundle > 0
  {
    && |states| == |movers| + 1 && |states[0].pos| == |indices|
    && (forall w :: 0 <= w < |indices| ==> states[0].pos[w] == 0 && indices[w] < |states[0].sets|)
    && (forall v, w :: 0 <= v < w < |indices| ==> indices[v] != indices[w])
    && (forall i :: 0 <= i < |states[0].sets| ==> Sized(p, states[0].sets[i]))
    && (forall i :: 0 <= i < |movers| ==> Step(p, data, indices, states[i], states[i + 1], movers[i]))
  }

  /** Each worker has done its part of the sequential work, whatever the others have done. */
  ghost predicate Progress(p: Params, data: seq<Entry>, indices: seq<nat>, start: seq<seq<Bundle>>, s: State)
    requires p.binsPerBundle > 0
  {
    && |s.pos| == |indices| && |s.sets| == |start|
    && (forall i :: 0 <= i < |start| ==> Sized(p, start[i]))
    && (forall w :: 0 <= w < |indices| ==> indices[w] < |start| && s.pos[w] <= |data|)
    && (forall w :: 0 <= w < |indices| ==> Process(p, data[..s.pos[w]], indices[w], start[indices[w]]) == Ok(s.sets[indices[w]]))
    && (forall i :: 0 <= i < |start| && i !in indices ==> s.sets[i] == start[i])
  }

  lemma ProcessNext(p: Params, data: seq<Entry>, n: nat, bundleIndex: nat, start: seq<Bundle>, now: seq<Bundle>)
    requires p.binsPerBundle > 0 && n < |data| && Sized(p, start) && Process(p, data[..n], bundleIndex, start) == Ok(now)
    ensures Process(p, data[..n + 1], bundleIndex, start) ==
      if IsOurs(p, data[n], bundleIndex) then AddItem(p, now, BinOf(p, data[n]), data[n].item) else Ok(now)
  {
    hide AddItem;
    assert data[..n + 1][..n] == data[..n];
    AddItemOkIff(p, now, BinOf(p, data[n]), data[n].item);
  }

  lemma StepProgress(p: Params, data: seq<Entry>, indices: seq<nat>, start: seq<seq<Bundle>>, s: State, s': State, w: nat)
    requires p.binsPerBundle > 0 && Progress(p, data, indices, start, s) && Step(p, data, indices, s, s', w)
    requires forall v, u :: 0 <= v < u < |indices| ==> indices[v] != indices[u]
    ensures Progress(p, data, indices, start, s')
  {
    hide AddItem, Process, Sized, BinOf, IsOurs;
    ProcessNext(p, data, s.pos[w], indices[w], start[indices[w]], s.sets[indices[w]]);
    forall v | 0 <= v < |indices|
      ensures Process(p, data[..s'.pos[v]], indices[v], start[indices[v]]) == Ok(s'.sets[indices[v]])
    {
      assert v != w ==> indices[v] != indices[w];
    }
  }

  lemma {:induction false} RunProgress(p: Params, data: seq<Entry>, indices: seq<nat>, states: seq<State>, movers: seq<nat>)
    requires p.binsPerBundle > 0 && Run(p, data, indices, states, movers)
    ensures Progress(p, data, indices, states[0].sets, states[|movers|])
  {
    hide Progress, Step;
    var k := |movers|;
    if k == 0 {
      StartProgress(p, data, indices, states[0]);
    } else {
      RunProgress(p, data, indices, states[..k], movers[..k - 1]);
      StepProgress(p, data, indices, states[0].sets, states[k - 1], states[k], movers[k - 1]);
    }
  }

  lemma StartProgress(p: Params, data: seq<Entry>, indices: seq<nat>, s: State)
    requires p.binsPerBundle > 0 && |s.pos| == |indices|
    requires forall w :: 0 <= w < |indices| ==> s.pos[w] == 0 && indices[w] < |s.sets|
    requires forall i :: 0 <= i < |s.sets| ==> Sized(p, s.sets[i])
    ensures Progress(p, data, indices, s.sets, s)
  {
  }

  /** The bundle indices of the entries, in increasing order without repetition. */
  ghost predicate AreIndices(p: Params, data: seq<Entry>, indices: seq<nat>)
    requires p.binsPerBundle > 0
  {
    && Increasing(indices)
    && (forall x :: x in indices <==> exists e :: e in data && IsOurs(p, e, x))
  }

  ghost predicate Increasing(s: seq<nat>) {
    forall v, w :: 0 <= v < w < |s| ==> s[v] < s[w]
  }

  /** An increasing sequence with one more element. */
  function InsertSorted(s: seq<nat>, x: nat): seq<nat> {
    if s == [] || x < s[0] then [x] + s
    else if x == s[0] then s
    else [s[0]] + InsertSorted(s[1..], x)
  }

  lemma Prepended(y: nat, s: seq<nat>)
    requires Increasing(s) && (s != [] ==> y < s[0])
    ensures Increasing([y] + s)
  {
    forall v, w | 0 <= v < w < |s| + 1
      ensures ([y] + s)[v] < ([y] + s)[w]
    {
      assert w > 1 ==> s[0] < s[w - 1];
    }
  }

  lemma {:induction false} InsertedSorted(s: seq<nat>, x: nat)
    requires Increasing(s)
    ensures var r := InsertSorted(s, x);
            Increasing(r) && r != [] && r[0] == (if s == [] || x < s[0] then x else s[0])
            && (forall y :: y in r <==> y in s || y == x)
  {
    if s == [] || x < s[0] {
      Prepended(x, s);
    } else if x > s[0] {
      InsertedSorted(s[1..], x);
      Prepended(s[0], InsertSorted(s[1..], x));
      assert s == [s[0]] + s[1..];
    }
  }

  /** The first loop of the dispatch. */
  method CollectIndices(p: Params, data: seq<Entry>) returns (indices: seq<nat>)
    requires p.binsPerBundle > 0
    ensures AreIndices(p, data, indices)
  {
    indices := [];
    for n := 0 to |data|
      invariant AreIndices(p, data[..n], indices)
    {
      var x := UnpackCuckooIdx(data[n].cuckooIdx, p.binsPerBundle).1;
      IndicesNext(p, data[..n], data[n], indices, x);
      indices := InsertSorted(indices, x);
      assert data[..n + 1] == data[..n] + [data[n]];
    }
    assert data[..|data|] == data;
  }

  lemma IndicesNext(p: Params, data: seq<Entry>, e: Entry, indices: seq<nat>, x: nat)
    requires p.binsPerBundle > 0 && AreIndices(p, data, indices) && IsOurs(p, e, x)
    ensures AreIndices(p, data + [e], InsertSorted(indices, x))
  {
    hide UnpackCuckooIdx, InsertSorted, Increasing;
    InsertedSorted(indices, x);
    var r := InsertSorted(indices, x);
    forall y
      ensures y in r <==> exists f :: f in data + [e] && IsOurs(p, f, y)
    {
      if y in r {
        if y == x {
          assert e in data + [e];
        } else {
          var f :| f in data && IsOurs(p, f, y);
          assert f in data + [e];
        }
      }
      if f :| f in data + [e] && IsOurs(p, f, y) {
        OneIndex(p, e, x, y);
        assert f in data || f == e;
      }
    }
  }

  lemma OneIndex(p: Params, e: Entry, x: nat, y: nat)
    requires p.binsPerBundle > 0 && IsOurs(p, e, x)
    ensures IsOurs(p, e, y) <==> x == y
  {
  }

  /** A bundle index without entries gains nothing. */
  lemma {:induction false} NothingInserted(p: Params, data: seq<Entry>, bundleIndex: nat, b: nat)
    requires p.binsPerBundle > 0 && forall e :: e in data ==> !IsOurs(p, e, bundleIndex)
    ensures Inserted(p, data, bundleIndex, b) == multiset{}
  {
    if data != [] {
      NothingInserted(p, data[..|data| - 1], bundleIndex, b);
      assert data[|data| - 1] in data;
    }
  }

  ghost predicate Finished(data: seq<Entry>, s: State) {
    forall w :: 0 <= w < |s.pos| ==> s.pos[w] == |data|
  }

  /** When every worker is through, whatever the interleaving, every bundle set is what the sequential work of
      its own worker makes of it: it has gained, bin by bin, exactly the felts inserted at its index, and every
      bin is below the limit. */
  lemma DispatchResult(p: Params, data: seq<Entry>, indices: seq<nat>, states: seq<State>, movers: seq<nat>, i: nat)
    requires p.binsPerBundle > 0 && p.maxBinSize >= 2 && AreIndices(p, data, indices) && Run(p, data, indices, states, movers)
    requires Finished(data, states[|movers|])
    requires i < |states[0].sets| && BelowMax(p, states[0].sets[i])
    ensures var now, start := states[|movers|].sets, states[0].sets;
            |now| == |start| && Sized(p, start[i])
            && (if i in indices then Process(p, data, i, start[i]) == Ok(now[i]) else now[i] == start[i])
            && BelowMax(p, now[i])
            && (forall b :: 0 <= b < p.binsPerBundle ==> Total(now[i], b) == Total(start[i], b) + Inserted(p, data, i, b))
  {
    hide Process, Step, Total, BelowMax, Sized, IsOurs, Inserted;
    RunProgress(p, data, indices, states, movers);
    assert data[..|data|] == data;
    if i in indices {
      var w :| 0 <= w < |indices| && indices[w] == i;
      assert states[|movers|].pos[w] == |data|;
      WorkerThrowsIff(p, data, i, states[0].sets[i]);
      ProcessEffect(p, data, i, states[0].sets[i]);
    } else {
      forall b | 0 <= b < p.binsPerBundle
        ensures Inserted(p, data, i, b) == multiset{}
      {
        NothingInserted(p, data, i, b);
      }
    }
  }
}
