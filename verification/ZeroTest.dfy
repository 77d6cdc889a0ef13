/** The zero-test circuit (Circuit.cpp) and the secret-shared equality test that selects oblivious-transfer
    messages with it (ssPEQT_ROT.cpp). */
module ZeroTest {
  import opened BinarySums
  import ModArith

  datatype Gate = Invert(wire: nat) | And(a: nat, b: nat, to: nat)

  predicate Fits(g: Gate, n: nat) {
    match g
    case Invert(w) => w < n
    case And(a, b, to) => a < n && b < n && to < n
  }

  predicate AllFit(gates: seq<Gate>, n: nat) {
    forall k :: 0 <= k < |gates| ==> Fits(gates[k], n)
  }

  /** One gate on the wires. */
  function Apply(g: Gate, w: seq<bool>): (r: seq<bool>)
    requires Fits(g, |w|)
    ensures |r| == |w|
  {
    match g
    case Invert(i) => w[i := !w[i]]
    case And(a, b, to) => w[to := w[a] && w[b]]
  }

  /** Plain evaluation, gate by gate. */
  function Evaluate(gates: seq<Gate>, w: seq<bool>): (r: seq<bool>)
    requires AllFit(gates, |w|)
    ensures |r| == |w|
  {
    if gates == [] then w else Apply(gates[|gates| - 1], Evaluate(gates[..|gates| - 1], w))
  }

  lemma EvaluateNext(gates: seq<Gate>, g: Gate, w: seq<bool>)
    requires AllFit(gates, |w|) && Fits(g, |w|)
    ensures AllFit(gates + [g], |w|) && Evaluate(gates + [g], w) == Apply(g, Evaluate(gates, w))
  {
    assert (gates + [g])[..|gates|] == gates;
  }

  /** No input wire of lo..hi-1 is set; hi is capped by the number of wires. */
  predicate NoneSet(w: seq<bool>, lo: nat, hi: nat) {
    forall k :: lo <= k < hi && k < |w| ==> !w[k]
  }

  predicate MultipleOf(i: nat, step: nat)
    requires step > 0
  {
    i % step == 0
  }

  /** The wires at multiples of step hold the conjunction over their block. */
  ghost predicate Blocks(gates: seq<Gate>, w: seq<bool>, step: nat)
    requires AllFit(gates, |w|) && step > 0
  {
    forall i :: 0 <= i < |w| && MultipleOf(i, step) ==> Evaluate(gates, w)[i] == NoneSet(w, i, i + step)
  }

  /** The same while blocks are being joined in pairs: up to wire `done` they are twice as long. */
  ghost predicate Joining(gates: seq<Gate>, w: seq<bool>, step: nat, done: nat)
    requires AllFit(gates, |w|) && step > 0
  {
    && (forall i :: 0 <= i < |w| && i < done && MultipleOf(i, 2 * step) ==> Evaluate(gates, w)[i] == NoneSet(w, i, i + 2 * step))
    && (forall i :: done <= i < |w| && MultipleOf(i, step) ==> Evaluate(gates, w)[i] == NoneSet(w, i, i + step))
  }

  lemma DoubleMultiple(i: nat, step: nat)
    requires step > 0
    ensures MultipleOf(i, 2 * step) ==> MultipleOf(i, step) && MultipleOf(i + step, step) && MultipleOf(i + 2 * step, 2 * step)
  {
    if MultipleOf(i, 2 * step) {
      var q := i / (2 * step);
      assert i == (2 * step) * q;
      Multiple(2 * q, step, i);
      Multiple(2 * q + 1, step, i + step);
      Multiple(q + 1, 2 * step, i + 2 * step);
    }
  }

  lemma Multiple(q: nat, step: nat, i: nat)
    requires step > 0 && i == step * q
    ensures MultipleOf(i, step)
  {
    ModMul(q, step);
  }

  lemma {:induction false} ModMul(q: nat, step: nat)
    requires step > 0
    ensures (step * q) % step == 0
  {
    ModArith.ModMultiple(q, step);
  }

  /** Distinct multiples of 2*step are at least that far apart. */
  lemma NextMultiple(i: nat, j: nat, step: nat)
    requires step > 0 && MultipleOf(i, 2 * step) && MultipleOf(j, 2 * step) && i < j
    ensures i + 2 * step <= j
  {
    var p, q := i / (2 * step), j / (2 * step);
    assert i == (2 * step) * p && j == (2 * step) * q;
    assert j - i == (2 * step) * (q - p);
    AtLeastOnce(2 * step, q - p);
  }

  lemma AtLeastOnce(m: nat, d: int)
    requires m > 0 && m * d > 0
    ensures m * d >= m
  {
    ModArith.MulLess(d, m);
  }

  lemma TwoBlocks(w: seq<bool>, i: nat, step: nat)
    ensures NoneSet(w, i, i + 2 * step) == (NoneSet(w, i, i + step) && NoneSet(w, i + step, i + step + step))
  {
  }

  /** One AND gate joins the two blocks at i. */
  lemma JoinStep(gates: seq<Gate>, w: seq<bool>, step: nat, i: nat)
    requires AllFit(gates, |w|) && step > 0 && Joining(gates, w, step, i) && MultipleOf(i, 2 * step) && i + step < |w|
    ensures AllFit(gates + [And(i, i + step, i)], |w|)
    ensures Joining(gates + [And(i, i + step, i)], w, step, i + 2 * step)
  {
    hide MultipleOf, Evaluate, NoneSet;
    var g := And(i, i + step, i);
    EvaluateNext(gates, g, w);
    DoubleMultiple(i, step);
    var v, v' := Evaluate(gates, w), Evaluate(gates + [g], w);
    TwoBlocks(w, i, step);
    forall k | 0 <= k < |w| && k < i + 2 * step && MultipleOf(k, 2 * step)
      ensures v'[k] == NoneSet(w, k, k + 2 * step)
    {
      if k > i {
        NextMultiple(i, k, step);
      }
    }
  }

  lemma JoinEnd(gates: seq<Gate>, w: seq<bool>, step: nat, i: nat)
    requires AllFit(gates, |w|) && step > 0 && Joining(gates, w, step, i) && MultipleOf(i, 2 * step) && i + step >= |w|
    ensures Blocks(gates, w, 2 * step)
  {
    hide MultipleOf;
    forall k | 0 <= k < |w| && MultipleOf(k, 2 * step)
      ensures Evaluate(gates, w)[k] == NoneSet(w, k, k + 2 * step)
    {
      DoubleMultiple(k, step);
    }
  }

  /** The circuit tests its inputs for zero. */
  ghost predicate TestsZero(cd: seq<Gate>, bits: nat)
    requires bits >= 1 && AllFit(cd, bits)
  {
    forall w: seq<bool> :: |w| == bits ==> Evaluate(cd, w)[0] == NoneSet(w, 0, bits)
  }

  /** For any width of at least one wire, a power of two or not, the circuit's output wire 0 is 1 exactly
      when every input is 0. */
  method IsZeroCircuit(bits: nat) returns (cd: seq<Gate>)
    requires bits >= 1
    ensures AllFit(cd, bits)
    ensures TestsZero(cd, bits)
  {
    hide Evaluate, Joining, Blocks, MultipleOf, TestsZero, Inverted;
    cd := [];
    var step := 1;
    forall w: seq<bool> | |w| == bits
      ensures Inverted(cd, w, 0)
    {
      InvertStart(w);
    }
    for i := 0 to bits
      invariant AllFit(cd, bits)
      invariant forall w: seq<bool> :: |w| == bits ==> Inverted(cd, w, i)
    {
      var g := Invert(i);
      forall w: seq<bool> | |w| == bits
        ensures AllFit(cd + [g], bits) && Inverted(cd + [g], w, i + 1)
      {
        InvertStep(cd, w, i);
      }
      cd := cd + [g];
    }
    forall w: seq<bool> | |w| == bits
      ensures Blocks(cd, w, 1)
    {
      InvertEnd(cd, w);
    }
    while step < bits
      invariant step >= 1 && AllFit(cd, bits)
      invariant forall w: seq<bool> :: |w| == bits ==> Blocks(cd, w, step)
      decreases bits - step
    {
      var i := 0;
      forall w: seq<bool> | |w| == bits
        ensures Joining(cd, w, step, 0) && MultipleOf(0, 2 * step)
      {
        JoinStart(cd, w, step);
      }
      Multiple(0, 2 * step, 0);
      while i + step < bits
        invariant i >= 0 && AllFit(cd, bits) && MultipleOf(i, 2 * step)
        invariant forall w: seq<bool> :: |w| == bits ==> Joining(cd, w, step, i)
        decreases bits - i
      {
        var g := And(i, i + step, i);
        forall w: seq<bool> | |w| == bits
          ensures AllFit(cd + [g], bits) && Joining(cd + [g], w, step, i + 2 * step)
        {
          JoinStep(cd, w, step, i);
        }
        DoubleMultiple(i, step);
        cd := cd + [g];
        i := i + step * 2;
      }
      forall w: seq<bool> | |w| == bits
        ensures Blocks(cd, w, 2 * step)
      {
        JoinEnd(cd, w, step, i);
      }
      step := step * 2;
    }
    FirstBlocks(cd, bits, step);
  }

  lemma FirstBlocks(cd: seq<Gate>, bits: nat, step: nat)
    requires bits >= 1 && AllFit(cd, bits) && step >= bits && forall w: seq<bool> :: |w| == bits ==> Blocks(cd, w, step)
    ensures TestsZero(cd, bits)
  {
    hide Evaluate, Blocks, NoneSet;
    forall w: seq<bool> | |w| == bits
      ensures Evaluate(cd, w)[0] == NoneSet(w, 0, bits)
    {
      FirstBlock(cd, w, step);
    }
  }

  ghost predicate Inverted(gates: seq<Gate>, w: seq<bool>, n: nat)
    requires AllFit(gates, |w|)
  {
    forall i :: 0 <= i < |w| ==> Evaluate(gates, w)[i] == if i < n then !w[i] else w[i]
  }

  lemma InvertStart(w: seq<bool>)
    ensures Inverted([], w, 0)
  {
  }

  lemma InvertStep(gates: seq<Gate>, w: seq<bool>, i: nat)
    requires AllFit(gates, |w|) && i < |w| && Inverted(gates, w, i)
    ensures AllFit(gates + [Invert(i)], |w|) && Inverted(gates + [Invert(i)], w, i + 1)
  {
    EvaluateNext(gates, Invert(i), w);
  }

  lemma InvertEnd(gates: seq<Gate>, w: seq<bool>)
    requires AllFit(gates, |w|) && Inverted(gates, w, |w|)
    ensures Blocks(gates, w, 1)
  {
  }

  lemma JoinStart(gates: seq<Gate>, w: seq<bool>, step: nat)
    requires AllFit(gates, |w|) && step > 0 && Blocks(gates, w, step)
    ensures Joining(gates, w, step, 0) && MultipleOf(0, 2 * step)
  {
    Multiple(0, 2 * step, 0);
  }

  lemma FirstBlock(gates: seq<Gate>, w: seq<bool>, step: nat)
    requires AllFit(gates, |w|) && |w| >= 1 && step >= |w| && Blocks(gates, w, step)
    ensures Evaluate(gates, w)[0] == NoneSet(w, 0, |w|)
  {
    Multiple(0, step, 0);
  }

  // ---------- The equality test on shares ----------

  /** Bit k of a number. */
  predicate BitOf(x: nat, k: nat) { (x / Pow2(k)) % 2 == 1 }

  /** The wires of the two inputs, exclusive-ored bit by bit. */
  function Difference(x: nat, y: nat, bits: nat): (r: seq<bool>)
    ensures |r| == bits && forall k :: 0 <= k < bits ==> r[k] == (BitOf(x, k) != BitOf(y, k))
  {
    seq(bits, k requires 0 <= k < bits => BitOf(x, k) != BitOf(y, k))
  }

  lemma LowParts(x: nat, p: nat)
    requires p > 0
    ensures x % (2 * p) == x % p + (x / p % 2) * p
  {
    var q, r := x / p, x % p;
    assert x == q * p + r;
    HalveQuotient(q, p);
    ModArith.DivModUnique(x, q / 2, (q % 2) * p + r, 2 * p);
  }

  lemma LowBits(x: nat, bits: nat)
    ensures x % Pow2(bits + 1) == x % Pow2(bits) + (if BitOf(x, bits) then Pow2(bits) else 0)
  {
    LowParts(x, Pow2(bits));
  }

  lemma HalveQuotient(q: nat, p: nat)
    ensures q * p == (q / 2) * (2 * p) + (q % 2) * p
  {
    ModArith.MulAssoc(q / 2, 2, p);
    assert q == (q / 2) * 2 + q % 2;
    assert q * p == ((q / 2) * 2) * p + (q % 2) * p;
  }

  /** No difference in the low bits is equality of the low parts. */
  lemma {:induction false} NoDifference(x: nat, y: nat, bits: nat, n: nat)
    requires n <= bits
    ensures NoneSet(Difference(x, y, bits), 0, n) <==> x % Pow2(n) == y % Pow2(n)
  {
    if n > 0 {
      NoDifference(x, y, bits, n - 1);
      LowBits(x, n - 1);
      LowBits(y, n - 1);
      assert NoneSet(Difference(x, y, bits), 0, n) == (NoneSet(Difference(x, y, bits), 0, n - 1) && !Difference(x, y, bits)[n - 1]);
    }
  }

  /** What the secure evaluation promises: the parties' outputs are shares of the circuit's output on the
      exclusive-or of their inputs. */
  ghost predicate GmwShares(cd: seq<Gate>, bits: nat, labelsS: seq<nat>, labelsR: seq<nat>, outS: seq<bool>, outR: seq<bool>)
    requires bits >= 1 && AllFit(cd, bits)
  {
    && |labelsS| == |labelsR| == |outS| == |outR|
    && forall k :: 0 <= k < |outS| ==> (outS[k] != outR[k]) == Evaluate(cd, Difference(labelsS[k], labelsR[k], bits))[0]
  }

  predicate Xor(a: bool, b: bool) { a != b }

  function Place(rowNum: nat, colNum: nat, i: nat, j: nat): (k: nat)
    requires i < rowNum && j < colNum
    ensures k == j * rowNum + i && k < rowNum * colNum
  {
    assert (j + 1) * rowNum <= colNum * rowNum by { ColumnFits(j + 1, colNum, rowNum); }
    j * rowNum + i
  }

  lemma ColumnFits(j: nat, colNum: nat, rowNum: nat)
    requires j <= colNum
    ensures j * rowNum <= colNum * rowNum
  {
  }

  /** Exclusive-or of row i over the first n columns of a column-major table. */
  ghost function RowXor(out: seq<bool>, rowNum: nat, colNum: nat, i: nat, n: nat): bool
    requires i < rowNum && n <= colNum && |out| == rowNum * colNum
  {
    if n == 0 then false else Xor(RowXor(out, rowNum, colNum, i, n - 1), out[Place(rowNum, colNum, i, n - 1)])
  }

  predicate Odd(n: nat) { n % 2 == 1 }

  method SenderBits(mOut: seq<bool>, rowNum: nat, colNum: nat) returns (bitV: seq<bool>)
    requires |mOut| == rowNum * colNum
    ensures |bitV| == rowNum && forall i :: 0 <= i < rowNum ==> bitV[i] == RowXor(mOut, rowNum, colNum, i, colNum)
  {
    bitV := seq(rowNum, _ => false);
    for i := 0 to rowNum
      invariant |bitV| == rowNum && forall k :: 0 <= k < i ==> bitV[k] == RowXor(mOut, rowNum, colNum, k, colNum)
      invariant forall k :: i <= k < rowNum ==> bitV[k] == false
    {
      for j := 0 to colNum
        invariant |bitV| == rowNum && bitV[i] == RowXor(mOut, rowNum, colNum, i, j)
        invariant forall k :: 0 <= k < i ==> bitV[k] == RowXor(mOut, rowNum, colNum, k, colNum)
        invariant forall k :: i < k < rowNum ==> bitV[k] == false
      {
        bitV := bitV[i := Xor(bitV[i], mOut[Place(rowNum, colNum, i, j)])];
      }
    }
  }

  /** The receiver also flips the bit once for every column. */
  method ReceiverBits(mOut: seq<bool>, rowNum: nat, colNum: nat) returns (bitV: seq<bool>)
    requires |mOut| == rowNum * colNum
    ensures |bitV| == rowNum && forall i :: 0 <= i < rowNum ==> bitV[i] == Xor(RowXor(mOut, rowNum, colNum, i, colNum), Odd(colNum))
  {
    bitV := seq(rowNum, _ => false);
    for i := 0 to rowNum
      invariant |bitV| == rowNum
      invariant forall k :: 0 <= k < i ==> bitV[k] == Xor(RowXor(mOut, rowNum, colNum, k, colNum), Odd(colNum))
      invariant forall k :: i <= k < rowNum ==> bitV[k] == false
    {
      for j := 0 to colNum
        invariant |bitV| == rowNum && bitV[i] == Xor(RowXor(mOut, rowNum, colNum, i, j), Odd(j))
        invariant forall k :: 0 <= k < i ==> bitV[k] == Xor(RowXor(mOut, rowNum, colNum, k, colNum), Odd(colNum))
        invariant forall k :: i < k < rowNum ==> bitV[k] == false
      {
        bitV := bitV[i := Xor(bitV[i], mOut[Place(rowNum, colNum, i, j)])];
        bitV := bitV[i := Xor(bitV[i], true)];
      }
    }
  }

  /** Number of the first n columns in which row i of the two tables agrees on the tested bits. */
  ghost function Matches(labelsS: seq<nat>, labelsR: seq<nat>, rowNum: nat, colNum: nat, bits: nat, i: nat, n: nat): nat
    requires i < rowNum && n <= colNum && |labelsS| == |labelsR| == rowNum * colNum
  {
    if n == 0 then 0
    else
      Matches(labelsS, labelsR, rowNum, colNum, bits, i, n - 1)
      + if labelsS[Place(rowNum, colNum, i, n - 1)] % Pow2(bits) == labelsR[Place(rowNum, colNum, i, n - 1)] % Pow2(bits) then 1 else 0
  }

  /** The shares of entry k differ exactly when the labels agree on the tested bits. */
  lemma SharesAt(cd: seq<Gate>, labelsS: seq<nat>, labelsR: seq<nat>, outS: seq<bool>, outR: seq<bool>, bits: nat, k: nat)
    requires bits >= 1 && AllFit(cd, bits) && TestsZero(cd, bits)
    requires GmwShares(cd, bits, labelsS, labelsR, outS, outR) && k < |outS|
    ensures Xor(outS[k], outR[k]) == (labelsS[k] % Pow2(bits) == labelsR[k] % Pow2(bits))
  {
    hide Evaluate, NoneSet, Pow2;
    NoDifference(labelsS[k], labelsR[k], bits, bits);
    assert Evaluate(cd, Difference(labelsS[k], labelsR[k], bits))[0] == NoneSet(Difference(labelsS[k], labelsR[k], bits), 0, bits);
  }

  lemma RowXorUnfold(out: seq<bool>, rowNum: nat, colNum: nat, i: nat, n: nat)
    requires i < rowNum && n <= colNum && |out| == rowNum * colNum
    ensures RowXor(out, rowNum, colNum, i, n) ==
      if n == 0 then false else Xor(RowXor(out, rowNum, colNum, i, n - 1), out[Place(rowNum, colNum, i, n - 1)])
  {
  }

  lemma MatchesUnfold(labelsS: seq<nat>, labelsR: seq<nat>, rowNum: nat, colNum: nat, bits: nat, i: nat, n: nat)
    requires i < rowNum && n <= colNum && |labelsS| == |labelsR| == rowNum * colNum
    ensures n == 0 ==> Matches(labelsS, labelsR, rowNum, colNum, bits, i, n) == 0
    ensures n > 0 ==>
      Matches(labelsS, labelsR, rowNum, colNum, bits, i, n) == Matches(labelsS, labelsR, rowNum, colNum, bits, i, n - 1)
      + if labelsS[Place(rowNum, colNum, i, n - 1)] % Pow2(bits) == labelsR[Place(rowNum, colNum, i, n - 1)] % Pow2(bits) then 1 else 0
  {
  }

  lemma {:induction false} SharesCountMatches(cd: seq<Gate>, labelsS: seq<nat>, labelsR: seq<nat>, outS: seq<bool>, outR: seq<bool>,
      rowNum: nat, colNum: nat, bits: nat, i: nat, n: nat)
    requires bits >= 1 && AllFit(cd, bits) && TestsZero(cd, bits)
    requires i < rowNum && n <= colNum && |labelsS| == rowNum * colNum && GmwShares(cd, bits, labelsS, labelsR, outS, outR)
    ensures Xor(RowXor(outS, rowNum, colNum, i, n), RowXor(outR, rowNum, colNum, i, n))
         == Odd(Matches(labelsS, labelsR, rowNum, colNum, bits, i, n))
  {
    hide TestsZero, GmwShares, Pow2, Place, Matches, RowXor;
    SharesSized(cd, bits, labelsS, labelsR, outS, outR);
    RowXorUnfold(outS, rowNum, colNum, i, n);
    RowXorUnfold(outR, rowNum, colNum, i, n);
    MatchesUnfold(labelsS, labelsR, rowNum, colNum, bits, i, n);
    if n > 0 {
      SharesCountMatches(cd, labelsS, labelsR, outS, outR, rowNum, colNum, bits, i, n - 1);
      SharesAt(cd, labelsS, labelsR, outS, outR, bits, Place(rowNum, colNum, i, n - 1));
    }
  }

  /** `SS_sender` and `SS_receiver` together, with the library's secure evaluation and random oblivious transfer
      as given: both sides hold the same message of row i exactly when the number of matching columns has the
      parity of the number of columns. With at most one match that means a match for an odd number of columns,
      and no match for an even number. */
  method SharedSelect<Block(==)>(labelsS: seq<nat>, labelsR: seq<nat>, rowNum: nat, colNum: nat, bits: nat, ghost cd: seq<Gate>,
      mOutS: seq<bool>, mOutR: seq<bool>, sMsgs: seq<(Block, Block)>)
    returns (outS: seq<Block>, outR: seq<Block>)
    requires bits >= 1 && AllFit(cd, bits) && TestsZero(cd, bits)
    requires |labelsS| == rowNum * colNum && GmwShares(cd, bits, labelsS, labelsR, mOutS, mOutR)
    requires |sMsgs| == rowNum && forall i :: 0 <= i < rowNum ==> sMsgs[i].0 != sMsgs[i].1
    ensures |outS| == |outR| == rowNum
    ensures forall i :: 0 <= i < rowNum ==>
      (outS[i] == outR[i] <==> Odd(Matches(labelsS, labelsR, rowNum, colNum, bits, i, colNum)) == Odd(colNum))
    ensures forall i :: 0 <= i < rowNum && Matches(labelsS, labelsR, rowNum, colNum, bits, i, colNum) <= 1 ==>
      (outS[i] == outR[i] <==> (Matches(labelsS, labelsR, rowNum, colNum, bits, i, colNum) == 1) == Odd(colNum))
  {
    hide TestsZero, Matches, GmwShares;
    SharesSized(cd, bits, labelsS, labelsR, mOutS, mOutR);
    var bitS := SenderBits(mOutS, rowNum, colNum);
    var bitR := ReceiverBits(mOutR, rowNum, colNum);
    outS, outR := [], [];
    for i := 0 to rowNum
      invariant |outS| == |outR| == i
      invariant forall k :: 0 <= k < i ==> outS[k] == (if bitS[k] then sMsgs[k].1 else sMsgs[k].0)
      invariant forall k :: 0 <= k < i ==> outR[k] == (if bitR[k] then sMsgs[k].1 else sMsgs[k].0)
    {
      outS := outS + [if bitS[i] then sMsgs[i].1 else sMsgs[i].0];
      outR := outR + [if bitR[i] then sMsgs[i].1 else sMsgs[i].0];
    }
    forall i | 0 <= i < rowNum
      ensures outS[i] == outR[i] <==> Odd(Matches(labelsS, labelsR, rowNum, colNum, bits, i, colNum)) == Odd(colNum)
    {
      SharesCountMatches(cd, labelsS, labelsR, mOutS, mOutR, rowNum, colNum, bits, i, colNum);
      assert sMsgs[i].0 != sMsgs[i].1;
    }
  }

  lemma SharesSized(cd: seq<Gate>, bits: nat, labelsS: seq<nat>, labelsR: seq<nat>, outS: seq<bool>, outR: seq<bool>)
    requires bits >= 1 && AllFit(cd, bits) && GmwShares(cd, bits, labelsS, labelsR, outS, outR)
    ensures |outS| == |outR| == |labelsR| == |labelsS|
  {
  }
}
