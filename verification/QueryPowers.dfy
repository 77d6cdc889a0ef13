/** The target powers of a query (`create_powers_set`) and the whole way from the query's source
    powers to the powers the evaluators read. */
module QueryPowers {
  import opened Exceptions
  import opened ModArith
  import opened PowersDag
  import opened ParallelApply
  import opened ParallelRuns
  import opened Seal
  import BatchedPolyn
  import Slots

  /** `create_powers_set`. The high loop's 32-bit counter passes the last high power by one step; the
      set is built when that step still fits. */
  method CreatePowersSet(psLowDegree: u32, targetDegree: u32) returns (r: Result<PowerSet>)
    requires HighLast(targetDegree, psLowDegree) + psLowDegree + 1 < 0x1_0000_0000
    ensures r.Ok? <==> psLowDegree <= targetDegree && targetDegree != 0
    ensures r.Ok? || r.InvalidArgument?
    ensures r.Ok? ==> BatchedPolyn.TargetsFor(r.value, psLowDegree, targetDegree)
  {
    hide BatchedPolyn.IsTarget, BatchedPolyn.TargetsFor, TargetsBelow;
    if psLowDegree > targetDegree {
      return InvalidArgument;
    }
    if targetDegree == 0 {
      return InvalidArgument;
    }
    var result: seq<u32>;
    if psLowDegree != 0 {
      result := PowersUpTo(psLowDegree);
      LowTargets(result, psLowDegree);
      result := AddHighPowers(result, psLowDegree, targetDegree);
    } else {
      result := PowersUpTo(targetDegree);
      PlainTargets(result, targetDegree);
    }
    return Ok(result);
  }

  /** The loops that insert 1, 2, ..., last. */
  method PowersUpTo(last: u32) returns (result: seq<u32>)
    ensures |result| == last && forall i :: 0 <= i < |result| ==> result[i] == i + 1
  {
    result := [];
    var power: nat := 1;
    while power <= last
      invariant 1 <= power <= last + 1 && |result| == power - 1
      invariant forall i :: 0 <= i < |result| ==> result[i] == i + 1
    {
      result := result + [power];
      power := power + 1;
    }
  }

  /** The loop over the multiples of psLowDegree + 1. */
  method AddHighPowers(low: PowerSet, psLowDegree: u32, targetDegree: u32) returns (result: PowerSet)
    requires 0 < psLowDegree <= targetDegree && TargetsBelow(low, psLowDegree, psLowDegree + 1)
    requires HighLast(targetDegree, psLowDegree) + psLowDegree + 1 < 0x1_0000_0000
    ensures BatchedPolyn.TargetsFor(result, psLowDegree, targetDegree)
  {
    hide BatchedPolyn.IsTarget, BatchedPolyn.TargetsFor, TargetsBelow, HighLast, Multiple;
    result := low;
    var highFirst := psLowDegree + 1;
    var highLast := HighLast(targetDegree, psLowDegree);
    var power: u32 := highFirst;
    ghost var q: nat := 1;
    FirstMultiple(psLowDegree, targetDegree);
    while power <= highLast
      invariant Multiple(power, q, psLowDegree) && power <= highLast + highFirst
      invariant TargetsBelow(result, psLowDegree, power)
      decreases highLast - power
    {
      AddHigh(result, power, q, psLowDegree);
      result := result + [power];
      NextMultiple(power, q, psLowDegree, targetDegree);
      power := power + highFirst;
      q := q + 1;
    }
    LastMultiple(targetDegree, psLowDegree, power, q);
    AllTargets(result, psLowDegree, power, targetDegree);
  }

  function HighLast(target: nat, l: nat): nat {
    (target / (l + 1)) * (l + 1)
  }

  ghost predicate Multiple(power: nat, q: nat, l: nat) {
    q >= 1 && power == q * (l + 1)
  }

  ghost predicate TargetsBelow(s: seq<u32>, l: nat, bound: nat) {
    forall n :: n in s <==> 1 <= n < bound && BatchedPolyn.IsTarget(n, l)
  }

  lemma LowTargets(s: seq<u32>, l: nat)
    requires |s| == l && forall i :: 0 <= i < |s| ==> s[i] == i + 1
    ensures TargetsBelow(s, l, l + 1)
  {
    forall n: nat | 1 <= n < l + 1 ensures n in s {
      assert s[n - 1] == n;
    }
  }

  lemma PlainTargets(s: seq<u32>, max: nat)
    requires |s| == max && forall i :: 0 <= i < |s| ==> s[i] == i + 1
    ensures BatchedPolyn.TargetsFor(s, 0, max)
  {
    forall n: nat | 1 <= n <= max ensures n in s {
      assert s[n - 1] == n;
    }
  }

  /** Between two multiples of h there is no other. */
  lemma NoMultipleBetween(n: nat, q: nat, h: nat)
    requires h > 0 && q * h < n < (q + 1) * h
    ensures n % h != 0
  {
    DivModUnique(n, q, n - q * h, h);
  }

  lemma FirstMultiple(l: nat, target: nat)
    requires l <= target
    ensures Multiple(l + 1, 1, l) && l + 1 <= HighLast(target, l) + l + 1
  {
  }

  lemma NextMultiple(power: nat, q: nat, l: nat, target: nat)
    requires Multiple(power, q, l) && power <= HighLast(target, l)
    ensures Multiple(power + l + 1, q + 1, l) && power + l + 1 <= HighLast(target, l) + l + 1
  {
  }

  lemma NoTargetBetween(n: nat, q: nat, l: nat)
    requires l > 0 && q >= 1 && q * (l + 1) < n < (q + 1) * (l + 1)
    ensures !BatchedPolyn.IsTarget(n, l)
  {
    NoMultipleBetween(n, q, l + 1);
  }

  lemma AddHigh(s: seq<u32>, power: u32, q: nat, l: nat)
    requires l > 0 && Multiple(power, q, l) && TargetsBelow(s, l, power) && Ascending(s)
    ensures TargetsBelow(s + [power], l, power + l + 1) && Ascending(s + [power])
  {
    hide BatchedPolyn.IsTarget;
    var t := s + [power];
    IsHighTarget(q, l);
    assert (q + 1) * (l + 1) == power + l + 1;
    forall n ensures n in t <==> 1 <= n < power + l + 1 && BatchedPolyn.IsTarget(n, l) {
      if power < n < power + l + 1 {
        NoTargetBetween(n, q, l);
      }
    }
    forall i | 0 <= i < |s| ensures s[i] < power {
      assert s[i] in s;
    }
  }

  lemma IsHighTarget(q: nat, l: nat)
    ensures 0 <= q * (l + 1) && BatchedPolyn.IsTarget(q * (l + 1), l)
  {
    ModMultiple(q, l + 1);
  }

  lemma LastMultiple(target: nat, l: nat, power: nat, q: nat)
    requires l > 0 && l <= target && Multiple(power, q, l)
    requires HighLast(target, l) < power <= HighLast(target, l) + l + 1
    ensures power > target && forall n :: target < n < power ==> !BatchedPolyn.IsTarget(n, l)
  {
    var h := l + 1;
    var last := target / h;
    assert target == last * h + target % h;
    assert (q - last - 1) * h == q * h - last * h - h;
    MulLess(q - last - 1, h);
    assert q == last + 1;
    forall n | target < n < power ensures !BatchedPolyn.IsTarget(n, l) {
      NoMultipleBetween(n, last, h);
    }
  }

  lemma AllTargets(s: seq<u32>, l: nat, bound: nat, max: nat)
    requires TargetsBelow(s, l, bound) && bound > max
    requires forall n :: max < n < bound ==> !BatchedPolyn.IsTarget(n, l)
    ensures BatchedPolyn.TargetsFor(s, l, max)
  {
    hide BatchedPolyn.IsTarget;
  }

  /** Every target of a query, source or not, is 1 or a sum of two targets, so the DAG `configure`
      builds for a query is always usable. */
  lemma QueryTargetsSplit(source: PowerSet, target: PowerSet, l: nat, max: nat)
    requires BatchedPolyn.TargetsFor(target, l, max) && l <= max && max > 0 && 1 in source
    ensures AllSplittable(source, target)
  {
    forall n | n in target && n !in source ensures Splittable(target, n) {
      QueryTargetSplits(target, l, max, n);
    }
  }

  lemma QueryTargetSplits(target: PowerSet, l: nat, max: nat, n: u32)
    requires BatchedPolyn.TargetsFor(target, l, max) && l <= max && max > 0 && n in target && n != 1
    ensures Splittable(target, n)
  {
    assert 1 in target;
    if l == 0 || n <= l {
      assert SplitsAt(target, n, n - 1);
    } else if n == l + 1 {
      assert SplitsAt(target, n, l);
    } else {
      MultipleBelow(n, l + 1);
      assert SplitsAt(target, n, n - (l + 1));
    }
  }

  lemma MultipleBelow(n: nat, h: nat)
    requires h > 0 && n % h == 0 && n > h
    ensures (n - h) % h == 0 && h % h == 0
  {
    var q := n / h;
    assert n == q * h;
    DivModUnique(n - h, q - 1, 0, h);
    DivModUnique(h, 1, 0, h);
  }

  /** The powers a run leaves in the receiver's vector, which is indexed by power. */
  function Vector(s: State, targets: PowerSet, max: nat, first: nat): (v: seq<Ciphertext>)
    ensures |v| == max + 1
    ensures forall j :: 0 <= j <= max ==>
              v[j] == if j in targets then Ciphertext(Cell(s, j), false, first) else Unset
  {
    seq(max + 1, j requires 0 <= j <= max => if j in targets then Ciphertext(Cell(s, j), false, first) else Unset)
  }

  /** From the query to the operands: for accepted query parameters, every fair run of any number of
      workers over the configured DAG ends, and leaves exactly the powers `FormPowers` starts from. */
  lemma QueryPowersComputed(nodes: Nodes, source: PowerSet, target: PowerSet, r: Run, l: nat, max: u32, first: nat)
    requires Configured(nodes, source, target) && BatchedPolyn.TargetsFor(target, l, max) && l <= max && max > 0
    requires Started(r) && Fair(r) && r.g.powers == target && r.g.nodes == nodes
    ensures Valid(r)
    ensures exists u :: AllReturned(At(r, u)) &&
              BatchedPolyn.Computed(Vector(At(r, u), target, max, first), target, r.x, first, r.g.modulus)
  {
    hide Valid, Inv, At, Fair, AllSplittable;
    assert 1 in source && r.g.modulus > 0;
    QueryTargetsSplit(source, target, l, max);
    ComputePowersIff(nodes, source, target, r);
    var u :| AllReturned(At(r, u)) && Complete(r.g, At(r, u), r.x);
    VectorComputed(r.g, At(r, u), r.x, max, first);
  }

  lemma VectorComputed(g: Graph, s: State, x: Slots.Vec, max: nat, first: nat)
    requires g.modulus > 0 && Complete(g, s, x)
    ensures BatchedPolyn.Computed(Vector(s, g.powers, max, first), g.powers, x, first, g.modulus)
  {
    forall j | 1 <= j <= max && j in g.powers ensures Cell(s, j) == Slots.Power(x, j, g.modulus) {
      var i :| 0 <= i < |g.powers| && g.powers[i] == j;
      assert CellDone(g, s, x, i);
    }
  }
}
