/** Whole histories of a labeled bin bundle: any sequence of calls, failing ones included, and what the answers to
    them are in terms of the calls alone. */
module BundleRuns {
  import opened Exceptions
  import opened Interpolate
  import opened BundleState
  import opened BinBundle
  import Bins

  // ---------- Changes ----------

  /** What a call that changes the bundle does to it. */
  datatype Change = Wrote(start: nat, xs: seq<int>, vs: seq<seq<int>>) | Took(start: nat, xs: seq<int>) | Emptied

  datatype Found = Nothing | Label(parts: seq<int>)

  type Contents = seq<map<int, seq<int>>>

  ghost predicate Step(v: Contents, c: Change, v': Contents) {
    match c
    case Wrote(start, xs, vs) => |vs| == |xs| && Written(v, start, xs, vs, v')
    case Took(start, xs) => Dropped(v, start, xs, v')
    case Emptied => v' == seq(|v|, _ => map[])
  }

  /** Views of the bundle, starting empty, with the change between each and the next. */
  ghost predicate Run(views: seq<Contents>, changes: seq<Change>, numBins: nat) {
    && |views| == |changes| + 1 && views[0] == seq(numBins, _ => map[])
    && forall i :: 0 <= i < |changes| ==> Step(views[i], changes[i], views[i + 1])
  }

  predicate Touches(c: Change, b: nat, x: int) {
    c.Emptied? || (c.start <= b < c.start + |c.xs| && c.xs[b - c.start] == x)
  }

  /** The last change that touched element x of bin b decides. */
  function LastChange(changes: seq<Change>, b: nat, x: int): Found {
    if changes == [] then Nothing
    else
      var c := changes[|changes| - 1];
      if !Touches(c, b, x) then LastChange(changes[..|changes| - 1], b, x)
      else if c.Wrote? && b - c.start < |c.vs| then Label(c.vs[b - c.start])
      else Nothing
  }

  lemma {:induction false} LookupFindsLastWrite(views: seq<Contents>, changes: seq<Change>, numBins: nat,
      b: nat, x: int)
    requires Run(views, changes, numBins) && b < numBins
    ensures |views[|changes|]| == numBins
    ensures LastChange(changes, b, x) == if x in views[|changes|][b] then Label(views[|changes|][b][x]) else Nothing
  {
    var n := |changes|;
    if n > 0 {
      LookupFindsLastWrite(views[..n], changes[..n - 1], numBins, b, x);
      assert Step(views[n - 1], changes[n - 1], views[n]);
    }
  }

  lemma RunExtended(views: seq<Contents>, changes: seq<Change>, numBins: nat, c: Change, v: Contents)
    requires Run(views, changes, numBins) && Step(views[|changes|], c, v)
    ensures Run(views + [v], changes + [c], numBins)
  {
  }

  // ---------- Calls and answers ----------

  datatype Call =
    | InsertItems(items: seq<int>, start: nat, dryRun: bool)
    | Insert(itemLabels: seq<(int, seq<int>)>, start: nat, dryRun: bool)
    | TouchItems(items: seq<int>, start: nat)
    | Overwrite(itemLabels: seq<(int, seq<int>)>, start: nat)
    | Remove(items: seq<int>, start: nat)
    | Lookup(items: seq<int>, start: nat, buffer: seq<int>)
    | Regen
    | ReadCache
    | Empty

  datatype Answer =
    | Sized(size: Result<int>)
    | Flagged(flag: Result<bool>)
    | Labels(flag: Result<bool>, labels: seq<int>)
    | Cached(cache: Result<Cache>)
    | Done

  /** Arguments are field elements. */
  ghost predicate CallOk(call: Call, p: int) {
    match call
    case InsertItems(items, _, _) => Felts(items, p)
    case Insert(itemLabels, _, _) => Felts(Firsts(itemLabels), p) && AllFelts(Seconds(itemLabels), p)
    case Overwrite(itemLabels, _) => AllFelts(Seconds(itemLabels), p)
    case _ => true
  }

  /** The change a call makes, seen from its answer: a failed one makes none. */
  function Effect(call: Call, answer: Answer): seq<Change> {
    match (call, answer)
    case (Insert(itemLabels, start, dryRun), Sized(size)) =>
      if size.Ok? && size.value != -1 && !dryRun then [Wrote(start, Firsts(itemLabels), Seconds(itemLabels))] else []
    case (Overwrite(itemLabels, start), Flagged(flag)) =>
      if flag == Ok(true) then [Wrote(start, Firsts(itemLabels), Seconds(itemLabels))] else []
    case (Remove(items, start), Flagged(flag)) => if flag == Ok(true) then [Took(start, items)] else []
    case (Empty, _) => [Emptied]
    case _ => []
  }

  function History(calls: seq<Call>, answers: seq<Answer>): seq<Change>
    requires |calls| == |answers|
  {
    if calls == [] then []
    else
      var n := |calls| - 1;
      History(calls[..n], answers[..n]) + Effect(calls[n], answers[n])
  }

  /** The cache is stale from the start, and again after every change and every overwrite without labels. */
  function Stale(calls: seq<Call>, answers: seq<Answer>): bool
    requires |calls| == |answers|
  {
    if calls == [] then true
    else
      var n := |calls| - 1;
      StaleAfter(calls[n], answers[n], Stale(calls[..n], answers[..n]))
  }

  function StaleAfter(call: Call, answer: Answer, stale: bool): bool {
    if call.Regen? then false
    else stale || Effect(call, answer) != [] || (call.TouchItems? && answer == Flagged(Ok(true)))
  }

  /** Element i of xs has a label in bin start + i. */
  ghost predicate Held(changes: seq<Change>, start: nat, xs: seq<int>, i: nat)
    requires i < |xs|
  {
    LastChange(changes, start + i, xs[i]).Label?
  }

  ghost predicate AllHeld(changes: seq<Change>, start: nat, xs: seq<int>) {
    forall i :: 0 <= i < |xs| ==> Held(changes, start, xs, i)
  }

  ghost predicate NoneHeld(changes: seq<Change>, start: nat, xs: seq<int>) {
    forall i :: 0 <= i < |xs| ==> !Held(changes, start, xs, i)
  }

  predicate InRange(params: Params, start: nat, n: nat) {
    n > 0 && start < params.numBins && n <= params.numBins - start
  }

  /** Part l of the last label written for element i is at index |items| * l + i. */
  ghost predicate LabelsOf(labels: seq<int>, changes: seq<Change>, start: nat, items: seq<int>, size: nat) {
    |labels| == |items| * size && forall i :: 0 <= i < |items| ==> LabelOf(labels, changes, start, items, size, i)
  }

  ghost predicate LabelOf(labels: seq<int>, changes: seq<Change>, start: nat, items: seq<int>, size: nat, i: nat)
    requires i < |items|
  {
    var found := LastChange(changes, start + i, items[i]);
    found.Label? && |found.parts| == size && PartsAt(labels, |items|, i, found.parts)
  }

  /** The cached polynomials of each bin: the matching one vanishes on the elements that have a label and nowhere
      else in the field, and interpolation polynomial l takes part l of the last label written. */
  ghost predicate CacheRight(cache: Cache, changes: seq<Change>, params: Params) {
    && params.mod.value > 0 && |cache.matching| == params.numBins && |cache.interp| == params.labelSize
    && forall b, x :: 0 <= b < params.numBins && 0 <= x < params.mod.value ==>
      CacheRightAt(cache, changes, params, b, x)
  }

  ghost predicate CacheRightAt(cache: Cache, changes: seq<Change>, params: Params, b: nat, x: int)
    requires params.mod.value > 0 && b < |cache.matching|
  {
    var found := LastChange(changes, b, x);
    && (Eval(cache.matching[b], x) % params.mod.value == 0 <==> found.Label?)
    && (found.Label? ==> |found.parts| == |cache.interp|)
    && (found.Label? ==> forall l :: 0 <= l < |cache.interp| ==>
      b < |cache.interp[l]| && Eval(cache.interp[l][b], x) % params.mod.value == found.parts[l])
  }

  /** The answer to a call on a labeled bundle, from the changes before it and whether the cache is stale. */
  ghost predicate Right(call: Call, answer: Answer, changes: seq<Change>, stale: bool, params: Params) {
    match call
    case InsertItems(items, _, _) => answer == Sized(if items == [] then Ok(-1) else LogicError)
    case Insert(itemLabels, start, _) =>
      answer.Sized? &&
      if itemLabels == [] then answer.size == Ok(-1)
      else if !LabelsSized(Seconds(itemLabels), params.labelSize) then answer.size == InvalidArgument
      else
        answer.size.Ok? && (answer.size.value != -1 <==>
          InRange(params, start, |itemLabels|) && NoneHeld(changes, start, Firsts(itemLabels)))
    case TouchItems(items, start) =>
      answer == Flagged(Ok(InRange(params, start, |items|) && AllHeld(changes, start, items)))
    case Overwrite(itemLabels, start) =>
      if itemLabels != [] && !LabelsSized(Seconds(itemLabels), params.labelSize) then answer == Flagged(InvalidArgument)
      else answer == Flagged(Ok(InRange(params, start, |itemLabels|) && AllHeld(changes, start, Firsts(itemLabels))))
    case Remove(items, start) =>
      answer == Flagged(Ok(InRange(params, start, |items|) && AllHeld(changes, start, items)))
    case Lookup(items, start, buffer) =>
      answer.Labels? && answer.flag == Ok(InRange(params, start, |items|) && AllHeld(changes, start, items))
      && (answer.flag == Ok(true) ==> LabelsOf(answer.labels, changes, start, items, params.labelSize))
    case ReadCache =>
      answer.Cached? &&
      if stale then answer.cache == LogicError else answer.cache.Ok? && CacheRight(answer.cache.value, changes, params)
    case _ => answer == Done
  }

  // ---------- The bundle keeps up with its history ----------

  /** The bundle is labeled and holds what the changes say. */
  ghost predicate Tracks(bundle: BinBundle, views: seq<Contents>, changes: seq<Change>)
    reads bundle
  {
    && bundle.Valid() && !bundle.stripped && bundle.params.labelSize > 0
    && Run(views, changes, bundle.params.numBins)
    && views[|changes|] == View(bundle.itemBins, bundle.labelBins)
  }

  lemma HeldIff(bundle: BinBundle, views: seq<Contents>, changes: seq<Change>, b: nat, x: int)
    requires Tracks(bundle, views, changes) && b < bundle.params.numBins
    ensures LastChange(changes, b, x).Label? <==> x in bundle.itemBins[b]
    ensures x in bundle.itemBins[b] ==>
      LastChange(changes, b, x) == Label(View(bundle.itemBins, bundle.labelBins)[b][x])
  {
    LookupFindsLastWrite(views, changes, bundle.params.numBins, b, x);
  }

  lemma AllHeldIff(bundle: BinBundle, views: seq<Contents>, changes: seq<Change>, start: nat, xs: seq<int>)
    requires Tracks(bundle, views, changes) && start + |xs| <= bundle.params.numBins
    ensures AllHeld(changes, start, xs) <==> Present(bundle.itemBins, start, xs)
    ensures NoneHeld(changes, start, xs) <==> Absent(bundle.itemBins, start, xs)
  {
    forall i | 0 <= i < |xs|
      ensures Held(changes, start, xs, i) <==> xs[i] in bundle.itemBins[start + i]
    {
      HeldIff(bundle, views, changes, start + i, xs[i]);
    }
    PresentAt(bundle.itemBins, start, xs);
  }

  lemma PresentAt(items: seq<seq<int>>, start: nat, xs: seq<int>)
    requires start + |xs| <= |items|
    ensures Present(items, start, xs) <==> forall i :: 0 <= i < |xs| ==> xs[i] in items[start + i]
    ensures Absent(items, start, xs) <==> forall i :: 0 <= i < |xs| ==> xs[i] !in items[start + i]
  {
    forall i | 0 <= i < |xs|
      ensures xs[start + i - start] == xs[i] && (Present(items, start, xs) ==> xs[i] in items[start + i])
      ensures Absent(items, start, xs) ==> xs[i] !in items[start + i]
    {
      var b := start + i;
      assert Present(items, start, xs) ==> xs[b - start] in items[b];
      assert Absent(items, start, xs) ==> xs[b - start] !in items[b];
    }
    forall b | start <= b < start + |xs|
      ensures xs[b - start] in items[start + (b - start)] <==> xs[b - start] in items[b]
    {
    }
  }

  /** One more change, or none, from one state of the bundle to the next. */
  lemma Kept(views: seq<Contents>, changes: seq<Change>, numBins: nat, effect: seq<Change>, v: Contents)
      returns (views': seq<Contents>)
    requires Run(views, changes, numBins) && |effect| <= 1
    requires if effect == [] then v == views[|changes|] else Step(views[|changes|], effect[0], v)
    ensures Run(views', changes + effect, numBins) && views'[|changes + effect|] == v
  {
    if effect == [] {
      assert changes + effect == changes;
      views' := views;
    } else {
      assert effect == [effect[0]];
      RunExtended(views, changes, numBins, effect[0], v);
      views' := views + [v];
    }
  }

  /** A valid cache says what the history says. */
  lemma CacheFollows(bundle: BinBundle, views: seq<Contents>, changes: seq<Change>)
    requires Tracks(bundle, views, changes) && !bundle.cacheInvalid
    ensures CacheRight(bundle.cache, changes, bundle.params)
  {
    forall b, x | 0 <= b < bundle.params.numBins && 0 <= x < bundle.params.mod.value
      ensures CacheRightAt(bundle.cache, changes, bundle.params, b, x)
    {
      CacheFollowsAt(bundle, views, changes, b, x);
    }
  }

  lemma CacheFollowsAt(bundle: BinBundle, views: seq<Contents>, changes: seq<Change>, b: nat, x: int)
    requires Tracks(bundle, views, changes) && !bundle.cacheInvalid && b < bundle.params.numBins
    requires 0 <= x < bundle.params.mod.value
    ensures b < |bundle.cache.matching| && CacheRightAt(bundle.cache, changes, bundle.params, b, x)
  {
    hide BatchOk, FiltersMatch, AllDistinct, AllFelts, Eval;
    HeldIff(bundle, views, changes, b, x);
    assert MatchingAt(bundle.cache.matching[b], bundle.itemBins[b], bundle.params.mod.value);
    if x in bundle.itemBins[b] {
      ViewAt(bundle.itemBins, bundle.labelBins, b, x);
      forall l | 0 <= l < |bundle.cache.interp|
        ensures b < |bundle.cache.interp[l]|
        ensures Eval(bundle.cache.interp[l][b], x) % bundle.params.mod.value
             == View(bundle.itemBins, bundle.labelBins)[b][x][l]
      {
        assert InterpOk(bundle.cache.interp[l], bundle.itemBins, bundle.labelBins[l], bundle.params.mod.value);
      }
    }
  }

  /** What a lookup fetches is what the history says. */
  lemma FetchedFollows(bundle: BinBundle, views: seq<Contents>, changes: seq<Change>, labels: seq<int>, start: nat,
      items: seq<int>)
    requires Tracks(bundle, views, changes) && start + |items| <= bundle.params.numBins
    requires |labels| == |items| * bundle.params.labelSize
    requires Fetched(labels, View(bundle.itemBins, bundle.labelBins), start, items, bundle.params.labelSize)
    ensures LabelsOf(labels, changes, start, items, bundle.params.labelSize)
  {
    hide PartsAt;
    forall i | 0 <= i < |items|
      ensures LabelOf(labels, changes, start, items, bundle.params.labelSize, i)
    {
      assert FetchedOne(labels, View(bundle.itemBins, bundle.labelBins), start, items, bundle.params.labelSize, i);
      HeldIff(bundle, views, changes, start + i, items[i]);
    }
  }

  // ---------- Any sequence of calls ----------

  /** One call on the bundle: its answer, and what it changes. */
  method Perform(bundle: BinBundle, call: Call, ghost views: seq<Contents>, ghost changes: seq<Change>)
    returns (answer: Answer, ghost views': seq<Contents>)
    requires Tracks(bundle, views, changes) && CallOk(call, bundle.params.mod.value)
    modifies bundle
    ensures Right(call, answer, changes, old(bundle.cacheInvalid), bundle.params)
    ensures Tracks(bundle, views', changes + Effect(call, answer))
    ensures bundle.cacheInvalid == StaleAfter(call, answer, old(bundle.cacheInvalid))
  {
    hide LastChange, CacheRight, LabelsOf, AllHeld, NoneHeld, Written, Dropped, Coherent, CacheOk, View,
      LabelsSized, Present, Absent, MaxAfter, Run, AllFelts, Felts, Fetched, Places, Bins.Erased, Bins.Pushed,
      Bins.Positions;
    match call {
      case InsertItems(items, start, dryRun) =>
        var size := bundle.MultiInsert(items, start, dryRun);
        answer := Sized(size);
      case Insert(itemLabels, start, dryRun) =>
        if InRange(bundle.params, start, |itemLabels|) {
          AllHeldIff(bundle, views, changes, start, Firsts(itemLabels));
        }
        var size := bundle.MultiInsertLabeled(itemLabels, start, dryRun);
        answer := Sized(size);
      case TouchItems(items, start) =>
        if InRange(bundle.params, start, |items|) {
          AllHeldIff(bundle, views, changes, start, items);
        }
        var flag := bundle.TryMultiOverwrite(items, start);
        answer := Flagged(flag);
      case Overwrite(itemLabels, start) =>
        if InRange(bundle.params, start, |itemLabels|) {
          AllHeldIff(bundle, views, changes, start, Firsts(itemLabels));
        }
        var flag := bundle.TryMultiOverwriteLabeled(itemLabels, start);
        answer := Flagged(flag);
      case Remove(items, start) =>
        if InRange(bundle.params, start, |items|) {
          AllHeldIff(bundle, views, changes, start, items);
        }
        var flag := bundle.TryMultiRemove(items, start);
        answer := Flagged(flag);
      case Lookup(items, start, buffer) =>
        if InRange(bundle.params, start, |items|) {
          AllHeldIff(bundle, views, changes, start, items);
        }
        var flag, labels := bundle.TryGetMultiLabel(items, start, buffer);
        if flag == Ok(true) {
          FetchedFollows(bundle, views, changes, labels, start, items);
        }
        answer := Labels(flag, labels);
      case Regen =>
        bundle.RegenCache();
        answer := Done;
      case ReadCache =>
        var cache := bundle.GetCache();
        if !bundle.cacheInvalid {
          CacheFollows(bundle, views, changes);
        }
        answer := Cached(cache);
      case Empty =>
        bundle.Clear(false);
        answer := Done;
    }
    AlignedOf(bundle.itemBins, bundle.labelBins, bundle.filters, bundle.params.mod.value);
    ghost var v := View(bundle.itemBins, bundle.labelBins);
    views' := Kept(views, changes, bundle.params.numBins, Effect(call, answer), v);
  }

  /** Any sequence of calls on a new bundle: every answer is the right one for the calls and answers before it, and
      at the end the bundle holds what the history of changes says, coherently. */
  method Replay(bundle: BinBundle, calls: seq<Call>) returns (answers: seq<Answer>, ghost views: seq<Contents>)
    requires bundle.Valid() && !bundle.stripped && bundle.params.labelSize > 0 && bundle.cacheInvalid
    requires View(bundle.itemBins, bundle.labelBins) == seq(bundle.params.numBins, _ => map[])
    requires forall i :: 0 <= i < |calls| ==> CallOk(calls[i], bundle.params.mod.value)
    modifies bundle
    ensures |answers| == |calls|
    ensures forall i :: 0 <= i < |calls| ==>
      Right(calls[i], answers[i], History(calls[..i], answers[..i]), Stale(calls[..i], answers[..i]), bundle.params)
    ensures Tracks(bundle, views, History(calls, answers)) && bundle.cacheInvalid == Stale(calls, answers)
  {
    hide Right, Effect, StaleAfter;
    answers, views := [], [View(bundle.itemBins, bundle.labelBins)];
    for n := 0 to |calls|
      invariant |answers| == n
      invariant forall i :: 0 <= i < n ==>
        Right(calls[i], answers[i], History(calls[..i], answers[..i]), Stale(calls[..i], answers[..i]), bundle.params)
      invariant Tracks(bundle, views, History(calls[..n], answers))
      invariant bundle.cacheInvalid == Stale(calls[..n], answers)
    {
      ghost var before, said := answers, History(calls[..n], answers);
      var answer: Answer;
      answer, views := Perform(bundle, calls[n], views, said);
      answers := answers + [answer];
      Next(calls, before, answers, n);
    }
    assert calls[..|calls|] == calls;
  }

  /** One more call. */
  lemma Next(calls: seq<Call>, before: seq<Answer>, answers: seq<Answer>, n: nat)
    requires n < |calls| && |before| == n && |answers| == n + 1 && answers[..n] == before
    ensures History(calls[..n + 1], answers) == History(calls[..n], before) + Effect(calls[n], answers[n])
    ensures Stale(calls[..n + 1], answers) == StaleAfter(calls[n], answers[n], Stale(calls[..n], before))
    ensures forall i :: 0 <= i <= n ==> answers[..i] == before[..i]
  {
    assert calls[..n + 1][..n] == calls[..n];
    forall i | 0 <= i <= n
      ensures answers[..i] == before[..i]
    {
      assert answers[..n][..i] == before[..i];
    }
  }
}
