/**
 The decoding problem, and the dynamic program that solves it.  A path is a start state and a
 bit sequence; its weight is the bias of the start state plus the gains of its transitions.
 */
module Trellis {
  import opened Bits
  import opened ConvolutionalCode

  /** One metric per state. */
  type bias = m: seq<int> | |m| == 64 witness seq(64, _ => 0)

  /** What the transition at a given step, from a given state and on a given input, adds to a metric. */
  type gain = (nat, state, bit) -> int

  datatype Path = Path(start: state, bits: seq<bit>) {
    function End(): state { Run(start, bits) }
  }

  /** The sum of the gains along the inputs u from state s. */
  function Gained(g: gain, s: state, u: seq<bit>): int {
    if |u| == 0 then 0
    else
      var n := |u| - 1;
      Gained(g, s, u[..n]) + g(n, Run(s, u[..n]), u[n])
  }

  function Weight(m0: bias, g: gain, p: Path): int {
    m0[p.start] + Gained(g, p.start, p.bits)
  }

  /** The dynamic program: the add-compare-select recurrence, without wrap-around. */
  function Value(m0: bias, g: gain, k: nat, t: state): int
    decreases k, 0
  {
    if k == 0 then m0[t]
    else
      var lo, hi := Through(m0, g, k, t, t / 2), Through(m0, g, k, t, t / 2 + 32);
      if lo > hi then lo else hi
  }

  /** The value at t after step k when the step comes from q. */
  function Through(m0: bias, g: gain, k: nat, t: state, q: state): int
    requires 0 < k
    decreases k - 1, 1
  {
    Value(m0, g, k - 1, q) + g(k - 1, q, t % 2)
  }

  /** The predecessor the recurrence selects; a tie goes to the upper half. */
  function Pred(m0: bias, g: gain, k: nat, t: state): state
    requires 0 < k
  {
    if Through(m0, g, k, t, t / 2) > Through(m0, g, k, t, t / 2 + 32) then t / 2 else t / 2 + 32
  }

  /** The path obtained by following selected predecessors back from t. */
  function Survivor(m0: bias, g: gain, k: nat, t: state): (p: Path)
    ensures |p.bits| == k
  {
    if k == 0 then Path(t, [])
    else
      var p := Survivor(m0, g, k - 1, Pred(m0, g, k, t));
      Path(p.start, p.bits + [t % 2])
  }

  lemma NextOfPred(m0: bias, g: gain, k: nat, t: state)
    requires 0 < k
    ensures Next(Pred(m0, g, k, t), t % 2) == t
    ensures Value(m0, g, k, t) == Through(m0, g, k, t, Pred(m0, g, k, t))
  {
  }

  /** No transition into a state beats the recurrence. */
  lemma NextIsBounded(m0: bias, g: gain, k: nat, q: state, x: bit)
    ensures Value(m0, g, k, q) + g(k, q, x) <= Value(m0, g, k + 1, Next(q, x))
  {
    var t := Next(q, x);
    assert t % 2 == x && (q == t / 2 || q == t / 2 + 32);
    assert Through(m0, g, k + 1, t, q) == Value(m0, g, k, q) + g(k, q, x);
  }

  /** Optimality, upper bound: no path weighs more than the value of its end state. */
  lemma {:induction false} ValueIsUpperBound(m0: bias, g: gain, p: Path)
    ensures Weight(m0, g, p) <= Value(m0, g, |p.bits|, p.End())
    decreases |p.bits|
  {
    if |p.bits| != 0 {
      var n := |p.bits| - 1;
      var p' := Path(p.start, p.bits[..n]);
      ValueIsUpperBound(m0, g, p');
      NextIsBounded(m0, g, n, p'.End(), p.bits[n]);
    }
  }

  /** Optimality, attained: the survivor ends in t and weighs exactly the value of t. */
  lemma {:induction false} SurvivorAttainsValue(m0: bias, g: gain, k: nat, t: state)
    ensures Survivor(m0, g, k, t).End() == t
    ensures Weight(m0, g, Survivor(m0, g, k, t)) == Value(m0, g, k, t)
  {
    if k != 0 {
      var q := Pred(m0, g, k, t);
      var p, p' := Survivor(m0, g, k, t), Survivor(m0, g, k - 1, q);
      SurvivorAttainsValue(m0, g, k - 1, q);
      assert p.bits[..k - 1] == p'.bits;
      NextOfPred(m0, g, k, t);
    }
  }

  ghost predicate IsOptimal(m0: bias, g: gain, k: nat, p: Path) {
    && |p.bits| == k
    && forall q: Path :: |q.bits| == k ==> Weight(m0, g, q) <= Weight(m0, g, p)
  }

  /** The survivor of a state of largest value is a path of largest weight over all paths. */
  lemma BestSurvivorIsOptimal(m0: bias, g: gain, k: nat, t: state)
    requires forall t': state :: Value(m0, g, k, t') <= Value(m0, g, k, t)
    ensures IsOptimal(m0, g, k, Survivor(m0, g, k, t))
  {
    SurvivorAttainsValue(m0, g, k, t);
    forall q: Path | |q.bits| == k
      ensures Weight(m0, g, q) <= Value(m0, g, k, t)
    {
      ValueIsUpperBound(m0, g, q);
    }
  }

  // ----- ties

  /** At the last step at which the two paths are in different states, p is in the upper half and q is not. */
  ghost predicate TakesUpperHalf(p: Path, q: Path)
    requires |p.bits| == |q.bits|
  {
    exists j | 0 <= j < |p.bits| :: IsLastDifference(p, q, j)
  }

  predicate IsLastDifference(p: Path, q: Path, j: nat)
    requires j < |p.bits| == |q.bits|
  {
    Run(p.start, p.bits[..j]) as int == Run(q.start, q.bits[..j]) as int + 32 && p.bits[j..] == q.bits[j..]
  }

  /** Among paths of equal weight the recurrence prefers the lower end state and then, going back, the upper half. */
  ghost predicate Precedes(p: Path, q: Path)
    requires |p.bits| == |q.bits|
  {
    p.End() < q.End() || (p.End() == q.End() && TakesUpperHalf(p, q))
  }

  /** Two paths of equal weight into t: the survivor is the one that takes the upper half where they part. */
  lemma {:induction false} SurvivorTakesUpperHalf(m0: bias, g: gain, k: nat, t: state, q: Path)
    requires |q.bits| == k && q.End() == t && q != Survivor(m0, g, k, t)
    requires Weight(m0, g, q) == Value(m0, g, k, t)
    ensures TakesUpperHalf(Survivor(m0, g, k, t), q)
  {
    if k != 0 {
      hide Run, Weight, Gained, Pred, Value, TakesUpperHalf;
      var n, s := k - 1, Survivor(m0, g, k, t);
      var r, q' := Pred(m0, g, k, t), Path(q.start, q.bits[..k - 1]);
      var s' := Survivor(m0, g, n, r);
      LastStepOfTie(m0, g, k, t, q);
      SurvivorAttainsValue(m0, g, n, r);
      assert s.bits == s'.bits + [t % 2] && q.bits == q'.bits + [t % 2];
      if q'.End() == r {
        SurvivorTakesUpperHalf(m0, g, n, r, q');
        DifferenceStays(s', q', t % 2);
      } else {
        PartAtLastStep(s', q', t % 2);
      }
    }
  }

  lemma DifferenceStays(p: Path, q: Path, b: bit)
    requires |p.bits| == |q.bits| && TakesUpperHalf(p, q)
    ensures TakesUpperHalf(Path(p.start, p.bits + [b]), Path(q.start, q.bits + [b]))
  {
    hide Run;
    var p', q' := Path(p.start, p.bits + [b]), Path(q.start, q.bits + [b]);
    var j :| 0 <= j < |p.bits| && IsLastDifference(p, q, j);
    assert p'.bits[..j] == p.bits[..j] && q'.bits[..j] == q.bits[..j];
    assert p'.bits[j..] == p.bits[j..] + [b] && q'.bits[j..] == q.bits[j..] + [b];
    assert IsLastDifference(p', q', j);
  }

  lemma PartAtLastStep(p: Path, q: Path, b: bit)
    requires |p.bits| == |q.bits| && p.End() as int == q.End() as int + 32
    ensures TakesUpperHalf(Path(p.start, p.bits + [b]), Path(q.start, q.bits + [b]))
  {
    hide Run;
    var n, p', q' := |p.bits|, Path(p.start, p.bits + [b]), Path(q.start, q.bits + [b]);
    assert p'.bits[..n] == p.bits && q'.bits[..n] == q.bits && p'.bits[n..] == [b] == q'.bits[n..];
    assert IsLastDifference(p', q', n);
  }

  /** The last step of a heaviest path into t comes from the selected predecessor or, in a tie, from the lower half. */
  lemma LastStepOfTie(m0: bias, g: gain, k: nat, t: state, q: Path)
    requires |q.bits| == k > 0 && q.End() == t && Weight(m0, g, q) == Value(m0, g, k, t)
    ensures var n, q' := k - 1, Path(q.start, q.bits[..k - 1]);
            && q.bits[n] == t % 2 && Weight(m0, g, q') == Value(m0, g, n, q'.End())
            && (q'.End() == Pred(m0, g, k, t) || Pred(m0, g, k, t) as int == q'.End() as int + 32)
  {
    var n, q' := k - 1, Path(q.start, q.bits[..k - 1]);
    ValueIsUpperBound(m0, g, q');
    assert t == Next(q'.End(), q.bits[n]);
    assert t % 2 == q.bits[n] && (q'.End() == t / 2 || q'.End() == t / 2 + 32);
    assert Through(m0, g, k, t, q'.End()) == Value(m0, g, n, q'.End()) + g(n, q'.End(), t % 2);
  }

  /** States that differ in the half merge on the next input. */
  lemma {:induction false} HalvesMerge(s: state, t: state, u: seq<bit>)
    requires s as int == t as int + 32 && |u| > 0
    ensures Run(s, u) == Run(t, u)
  {
    var n := |u| - 1;
    if n == 0 {
      assert u[..0] == [];
    } else {
      HalvesMerge(s, t, u[..n]);
    }
  }

  lemma PrecedesOneWay(p: Path, q: Path)
    requires |p.bits| == |q.bits| && Precedes(p, q)
    ensures !Precedes(q, p)
  {
    if Precedes(q, p) {
      var i :| 0 <= i < |p.bits| && IsLastDifference(p, q, i);
      var j :| 0 <= j < |p.bits| && IsLastDifference(q, p, j);
      if i < j {
        MergedBy(p, q, i, j);
      } else if j < i {
        MergedBy(q, p, j, i);
      }
      assert false;
    }
  }

  lemma MergedBy(p: Path, q: Path, i: nat, j: nat)
    requires i < j < |p.bits| == |q.bits| && IsLastDifference(p, q, i)
    ensures Run(p.start, p.bits[..j]) == Run(q.start, q.bits[..j])
  {
    hide Run;
    var u := p.bits[i..j];
    assert p.bits[..j] == p.bits[..i] + u && q.bits[..j] == q.bits[..i] + q.bits[i..j];
    assert q.bits[i..j] == q.bits[i..][..j - i] == p.bits[i..][..j - i] == u;
    RunAppend(p.start, p.bits[..i], u);
    RunAppend(q.start, q.bits[..i], u);
    HalvesMerge(Run(p.start, p.bits[..i]), Run(q.start, q.bits[..i]), u);
  }

  // ----- the spread of the values

  /** A transition gains at most two: one for each received symbol. */
  ghost predicate Bounded(g: gain) {
    forall i, s, b :: 0 <= g(i, s, b) <= 2
  }

  /** The state on the survivor of t at an earlier time w. */
  function Ancestor(m0: bias, g: gain, w: nat, k: nat, t: state): state
    requires w <= k
    decreases k
  {
    if w == k then t else Ancestor(m0, g, w, k - 1, Pred(m0, g, k, t))
  }

  lemma {:induction false} ValueGrowth(m0: bias, g: gain, w: nat, k: nat, t: state)
    requires w <= k && Bounded(g)
    ensures var a := Value(m0, g, w, Ancestor(m0, g, w, k, t));
            a <= Value(m0, g, k, t) <= a + 2 * (k - w)
    decreases k
  {
    if w != k {
      NextOfPred(m0, g, k, t);
      ValueGrowth(m0, g, w, k - 1, Pred(m0, g, k, t));
    }
  }

  lemma {:induction false} ValueAfterInputs(m0: bias, g: gain, k: nat, s: state, u: seq<bit>)
    requires Bounded(g)
    ensures Value(m0, g, k, s) <= Value(m0, g, k + |u|, Run(s, u))
    decreases |u|
  {
    if |u| != 0 {
      var n := |u| - 1;
      ValueAfterInputs(m0, g, k, s, u[..n]);
      NextIsBounded(m0, g, k + n, Run(s, u[..n]), u[n]);
    }
  }

  /** The low j bits of t, most significant first. */
  function LowBits(t: nat, j: nat): (u: seq<bit>)
    ensures |u| == j
    ensures t < Pow2(j) ==> Val(u) == t
  {
    if j == 0 then []
    else
      var u := LowBits(t / 2, j - 1) + [t % 2];
      assert u[..j - 1] == LowBits(t / 2, j - 1);
      u
  }

  /** Any state is reached from any other by its own six bits. */
  lemma ApproachLeadsTo(s: state, t: state)
    ensures Run(s, LowBits(t, 6)) == t
  {
    RunSix(s, LowBits(t, 6));
    assert Pow2(6) == 64 by { assert Pow2(3) == 8; }
  }

  /** Six steps connect any two states, so from then on the values stay within 12 of each other. */
  lemma ValueSpread(m0: bias, g: gain, k: nat, t: state, t': state)
    requires 6 <= k && Bounded(g)
    ensures Value(m0, g, k, t) - Value(m0, g, k, t') <= 12
  {
    var w := k - 6;
    var a := Ancestor(m0, g, w, k, t);
    ValueGrowth(m0, g, w, k, t);
    var u := LowBits(t', 6);
    assert Run(a, u) == t' by { ApproachLeadsTo(a, t'); }
    ValueAfterInputs(m0, g, w, a, u);
  }
}
