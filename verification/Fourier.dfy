/**
 The discrete Fourier transform over any commutative ring, and the recursion that computes it
 by evaluating a polynomial at the powers of a root of -1.
 */
module Fourier {
  import opened Bits
  import opened BitReversal

  datatype Ring<!T> = Ring(zero: T, one: T, add: (T, T) -> T, neg: T -> T, mul: (T, T) -> T)

  ghost predicate Laws<T(!new)>(R: Ring<T>) {
    && (forall a, b, c :: R.add(R.add(a, b), c) == R.add(a, R.add(b, c)))
    && (forall a, b :: R.add(a, b) == R.add(b, a))
    && (forall a :: R.add(R.zero, a) == a)
    && (forall a :: R.add(a, R.neg(a)) == R.zero)
    && (forall a, b, c :: R.mul(R.mul(a, b), c) == R.mul(a, R.mul(b, c)))
    && (forall a, b :: R.mul(a, b) == R.mul(b, a))
    && (forall a :: R.mul(R.one, a) == a)
    && (forall a, b, c :: R.mul(a, R.add(b, c)) == R.add(R.mul(a, b), R.mul(a, c)))
  }

  function Sub<T>(R: Ring<T>, a: T, b: T): T {
    R.add(a, R.neg(b))
  }

  function Power<T>(R: Ring<T>, z: T, n: nat): T {
    if n == 0 then R.one else R.mul(z, Power(R, z, n - 1))
  }

  /** The polynomial with coefficients p, lowest first, at z. */
  function Eval<T>(R: Ring<T>, p: seq<T>, z: T): T {
    if |p| == 0 then R.zero else R.add(p[0], R.mul(z, Eval(R, p[1..], z)))
  }

  /** The first m terms of the k-th coefficient of the transform: the sum of x[j] w^(jk). */
  function DftSum<T>(R: Ring<T>, x: seq<T>, w: T, k: nat, m: nat): T
    requires m <= |x|
  {
    if m == 0 then R.zero
    else R.add(DftSum(R, x, w, k, m - 1), R.mul(x[m - 1], Power(R, w, (m - 1) * k)))
  }

  // ----- the laws, one instance at a time

  lemma AddAssoc<T(!new)>(R: Ring<T>, a: T, b: T, c: T)
    requires Laws(R)
    ensures R.add(R.add(a, b), c) == R.add(a, R.add(b, c))
  {
  }

  lemma AddComm<T(!new)>(R: Ring<T>, a: T, b: T)
    requires Laws(R)
    ensures R.add(a, b) == R.add(b, a)
  {
  }

  lemma AddZero<T(!new)>(R: Ring<T>, a: T)
    requires Laws(R)
    ensures R.add(R.zero, a) == a
  {
  }

  lemma AddNeg<T(!new)>(R: Ring<T>, a: T)
    requires Laws(R)
    ensures R.add(a, R.neg(a)) == R.zero
  {
  }

  lemma MulAssoc<T(!new)>(R: Ring<T>, a: T, b: T, c: T)
    requires Laws(R)
    ensures R.mul(R.mul(a, b), c) == R.mul(a, R.mul(b, c))
  {
  }

  lemma MulComm<T(!new)>(R: Ring<T>, a: T, b: T)
    requires Laws(R)
    ensures R.mul(a, b) == R.mul(b, a)
  {
  }

  lemma MulOne<T(!new)>(R: Ring<T>, a: T)
    requires Laws(R)
    ensures R.mul(R.one, a) == a
  {
  }

  lemma Distribute<T(!new)>(R: Ring<T>, a: T, b: T, c: T)
    requires Laws(R)
    ensures R.mul(a, R.add(b, c)) == R.add(R.mul(a, b), R.mul(a, c))
  {
  }

  lemma AddCancel<T(!new)>(R: Ring<T>, a: T, b: T, c: T)
    requires Laws(R) && R.add(a, b) == R.add(a, c)
    ensures b == c
  {
    hide Laws;
    forall x
      ensures x == R.add(R.neg(a), R.add(a, x))
    {
      AddAssoc(R, R.neg(a), a, x);
      AddComm(R, R.neg(a), a);
      AddNeg(R, a);
      AddZero(R, x);
    }
    assert b == R.add(R.neg(a), R.add(a, b));
    assert c == R.add(R.neg(a), R.add(a, c));
  }

  lemma MulZero<T(!new)>(R: Ring<T>, a: T)
    requires Laws(R)
    ensures R.mul(a, R.zero) == R.zero
  {
    hide Laws;
    AddZero(R, R.zero);
    Distribute(R, a, R.zero, R.zero);
    var z := R.mul(a, R.zero);
    AddZero(R, z);
    AddComm(R, R.zero, z);
    AddCancel(R, z, z, R.zero);
  }

  lemma MulNeg<T(!new)>(R: Ring<T>, a: T, b: T)
    requires Laws(R)
    ensures R.mul(R.neg(a), b) == R.neg(R.mul(a, b))
  {
    hide Laws;
    MulComm(R, R.neg(a), b);
    MulComm(R, a, b);
    Distribute(R, b, a, R.neg(a));
    AddNeg(R, a);
    MulZero(R, b);
    AddNeg(R, R.mul(a, b));
    AddCancel(R, R.mul(a, b), R.mul(R.neg(a), b), R.neg(R.mul(a, b)));
  }

  lemma NegNeg<T(!new)>(R: Ring<T>, a: T)
    requires Laws(R)
    ensures R.neg(R.neg(a)) == a
  {
    hide Laws;
    AddNeg(R, a);
    AddNeg(R, R.neg(a));
    AddComm(R, a, R.neg(a));
    AddCancel(R, R.neg(a), a, R.neg(R.neg(a)));
  }

  // ----- powers

  lemma {:induction false} PowerAdd<T(!new)>(R: Ring<T>, z: T, m: nat, n: nat)
    requires Laws(R)
    ensures Power(R, z, m + n) == R.mul(Power(R, z, m), Power(R, z, n))
  {
    hide Laws;
    if m == 0 {
      MulOne(R, Power(R, z, n));
    } else {
      PowerAdd(R, z, m - 1, n);
      MulAssoc(R, z, Power(R, z, m - 1), Power(R, z, n));
    }
  }

  lemma {:induction false} PowerOfSquare<T(!new)>(R: Ring<T>, z: T, n: nat)
    requires Laws(R)
    ensures Power(R, R.mul(z, z), n) == R.mul(Power(R, z, n), Power(R, z, n))
  {
    hide Laws;
    if n == 0 {
      MulOne(R, R.one);
    } else {
      var p := Power(R, z, n - 1);
      PowerOfSquare(R, z, n - 1);
      MulAssoc(R, z, z, R.mul(p, p));
      MulAssoc(R, z, p, p);
      MulComm(R, R.mul(z, p), p);
      MulAssoc(R, z, p, R.mul(z, p));
    }
  }

  lemma {:induction false} PowerPower<T(!new)>(R: Ring<T>, z: T, k: nat, j: nat)
    requires Laws(R)
    ensures Power(R, Power(R, z, k), j) == Power(R, z, j * k)
  {
    hide Laws;
    if j != 0 {
      PowerPower(R, z, k, j - 1);
      PowerAdd(R, z, k, (j - 1) * k);
      assert k + (j - 1) * k == j * k;
    }
  }

  // ----- evaluation as a sum, and its split into even and odd coefficients

  lemma {:induction false} EvalSnoc<T(!new)>(R: Ring<T>, p: seq<T>, a: T, z: T)
    requires Laws(R)
    ensures Eval(R, p + [a], z) == R.add(Eval(R, p, z), R.mul(a, Power(R, z, |p|)))
    decreases |p|
  {
    hide Laws;
    if |p| == 0 {
      assert Eval(R, p + [a], z) == R.add(a, R.mul(z, R.zero));
      MulZero(R, z);
      AddComm(R, a, R.zero);
      MulComm(R, a, R.one);
      MulOne(R, a);
    } else {
      var q, w := p[1..], Power(R, z, |p| - 1);
      var e := Eval(R, q, z);
      EvalSnoc(R, q, a, z);
      assert (p + [a])[1..] == q + [a];
      Distribute(R, z, e, R.mul(a, w));
      AddAssoc(R, p[0], R.mul(z, e), R.mul(z, R.mul(a, w)));
      MulAssoc(R, z, a, w);
      MulComm(R, z, a);
      MulAssoc(R, a, z, w);
    }
  }

  /** Horner evaluation at w^k is the defining sum of the transform. */
  lemma {:induction false} EvalIsDftSum<T(!new)>(R: Ring<T>, x: seq<T>, w: T, k: nat, m: nat)
    requires Laws(R) && m <= |x|
    ensures Eval(R, x[..m], Power(R, w, k)) == DftSum(R, x, w, k, m)
  {
    hide Laws;
    if m != 0 {
      EvalIsDftSum(R, x, w, k, m - 1);
      EvalSnoc(R, x[..m - 1], x[m - 1], Power(R, w, k));
      assert x[..m] == x[..m - 1] + [x[m - 1]];
      PowerPower(R, w, k, m - 1);
    }
  }

  function Even<T>(p: seq<T>): (e: seq<T>)
    requires |p| % 2 == 0
    ensures |e| == |p| / 2
  {
    seq(|p| / 2, i requires 0 <= i < |p| / 2 => p[2 * i])
  }

  function Odd<T>(p: seq<T>): (o: seq<T>)
    requires |p| % 2 == 0
    ensures |o| == |p| / 2
  {
    seq(|p| / 2, i requires 0 <= i < |p| / 2 => p[2 * i + 1])
  }

  /** p(z) = even(z^2) + z odd(z^2). */
  lemma {:induction false} EvalSplit<T(!new)>(R: Ring<T>, p: seq<T>, z: T)
    requires Laws(R) && |p| % 2 == 0
    ensures Eval(R, p, z) == R.add(Eval(R, Even(p), R.mul(z, z)), R.mul(z, Eval(R, Odd(p), R.mul(z, z))))
    decreases |p|
  {
    hide Laws;
    if |p| == 0 {
      MulZero(R, z);
      AddZero(R, R.zero);
    } else {
      var q := p[2..];
      EvalSplit(R, q, z);
      assert Even(p)[1..] == Even(q) && Odd(p)[1..] == Odd(q);
      assert p[1..][1..] == q;
      SplitStep(R, p[0], p[1], z, Eval(R, Even(q), R.mul(z, z)), Eval(R, Odd(q), R.mul(z, z)));
    }
  }

  lemma SplitStep<T(!new)>(R: Ring<T>, a: T, b: T, z: T, e: T, o: T)
    requires Laws(R)
    ensures R.add(a, R.mul(z, R.add(b, R.mul(z, R.add(e, R.mul(z, o))))))
         == R.add(R.add(a, R.mul(R.mul(z, z), e)), R.mul(z, R.add(b, R.mul(R.mul(z, z), o))))
  {
    hide Laws;
    var ze, zo := R.mul(z, e), R.mul(z, o);
    var zze, zzo := R.mul(R.mul(z, z), e), R.mul(R.mul(z, z), o);
    var zb := R.mul(z, b);
    Distribute(R, z, e, zo);
    MulAssoc(R, z, z, e);
    MulAssoc(R, z, z, o);
    assert R.mul(z, R.add(e, zo)) == R.add(ze, zzo);
    Distribute(R, z, b, R.add(ze, zzo));
    Distribute(R, z, ze, zzo);
    Distribute(R, z, b, zzo);
    assert R.mul(z, R.add(b, R.add(ze, zzo))) == R.add(zb, R.add(zze, R.mul(z, zzo)));
    AddAssoc(R, zb, zze, R.mul(z, zzo));
    AddComm(R, zb, zze);
    AddAssoc(R, zze, zb, R.mul(z, zzo));
    AddAssoc(R, a, zze, R.add(zb, R.mul(z, zzo)));
  }

  // ----- the transform by stages

  /** Exact twiddle steps: the first is -1 and each later one squares to the one before. */
  ghost predicate AreTwiddles<T>(R: Ring<T>, steps: seq<T>) {
    && (|steps| > 0 ==> steps[0] == R.neg(R.one))
    && forall b | 0 <= b < |steps| - 1 :: R.mul(steps[b + 1], steps[b + 1]) == steps[b]
  }

  /** Entry k of the block of 2^b entries at base, after b stages over w. */
  function Block<T>(R: Ring<T>, steps: seq<T>, w: seq<T>, b: nat, base: nat, k: nat): T
    requires b <= |steps| && k < Pow2(b) && base + Pow2(b) <= |w|
    decreases b
  {
    if b == 0 then w[base]
    else
      var half := Pow2(b - 1);
      if k < half then
        R.add(Block(R, steps, w, b - 1, base, k),
              R.mul(Power(R, steps[b - 1], k), Block(R, steps, w, b - 1, base + half, k)))
      else
        Sub(R, Block(R, steps, w, b - 1, base, k - half),
            R.mul(Power(R, steps[b - 1], k - half), Block(R, steps, w, b - 1, base + half, k - half)))
  }

  /** The step of stage b is a 2^b-th root of -1. */
  lemma {:induction false} TwiddleIsRoot<T(!new)>(R: Ring<T>, steps: seq<T>, b: nat)
    requires Laws(R) && AreTwiddles(R, steps) && b < |steps|
    ensures Power(R, steps[b], Pow2(b)) == R.neg(R.one)
  {
    hide Laws;
    var z, h := steps[b], if b == 0 then 0 else Pow2(b - 1);
    if b == 0 {
      assert Power(R, z, 1) == R.mul(z, R.one);
      MulComm(R, z, R.one);
      MulOne(R, z);
    } else {
      TwiddleIsRoot(R, steps, b - 1);
      PowerAdd(R, z, h, h);
      PowerOfSquare(R, z, h);
    }
  }

  /** Half a turn further, a power changes sign and its square stays the same. */
  lemma HalfTurn<T(!new)>(R: Ring<T>, steps: seq<T>, b: nat, k: nat)
    requires Laws(R) && AreTwiddles(R, steps) && b < |steps|
    ensures var p, q := Power(R, steps[b], k), Power(R, steps[b], k + Pow2(b));
            q == R.neg(p) && R.mul(q, q) == R.mul(p, p)
  {
    hide Laws, Power;
    var p := Power(R, steps[b], k);
    PowerAdd(R, steps[b], k, Pow2(b));
    TwiddleIsRoot(R, steps, b);
    MulComm(R, p, R.neg(R.one));
    MulNeg(R, R.one, p);
    MulOne(R, p);
    MulNeg(R, p, R.neg(p));
    MulComm(R, p, R.neg(p));
    MulNeg(R, p, p);
    NegNeg(R, R.mul(p, p));
  }

  /** The powers of a stage's step square to the powers of the step before. */
  lemma SquaredPower<T(!new)>(R: Ring<T>, steps: seq<T>, b: nat, k: nat)
    requires Laws(R) && AreTwiddles(R, steps) && 0 < b < |steps|
    ensures R.mul(Power(R, steps[b], k), Power(R, steps[b], k)) == Power(R, steps[b - 1], k)
  {
    hide Laws;
    PowerOfSquare(R, steps[b], k);
  }

  /** The argument at which entry k of a block of 2^b entries evaluates its polynomial. */
  function Node<T>(R: Ring<T>, steps: seq<T>, b: nat, k: nat): T
    requires b <= |steps|
  {
    if b == 0 then R.one else Power(R, steps[b - 1], k)
  }

  /** The entries of p sit in block base of w in bit-reversed order. */
  ghost predicate HoldsReversed<T>(w: seq<T>, base: nat, b: nat, p: seq<T>) {
    && |p| == Pow2(b) && base + Pow2(b) <= |w|
    && forall j | 0 <= j < |p| :: w[base + Reverse(b, j)] == p[j]
  }

  /** The two halves of a reversed block hold the even and the odd entries, reversed. */
  lemma ReversedHalves<T>(w: seq<T>, base: nat, b: nat, p: seq<T>)
    requires 0 < b && HoldsReversed(w, base, b, p)
    ensures HoldsReversed(w, base, b - 1, Even(p)) && HoldsReversed(w, base + Pow2(b - 1), b - 1, Odd(p))
  {
    forall j | 0 <= j < Pow2(b - 1)
      ensures w[base + Reverse(b - 1, j)] == Even(p)[j]
      ensures w[base + Pow2(b - 1) + Reverse(b - 1, j)] == Odd(p)[j]
    {
      assert Reverse(b, 2 * j) == Reverse(b - 1, j);
      assert Reverse(b, 2 * j + 1) == Pow2(b - 1) + Reverse(b - 1, j) by {
        assert (2 * j + 1) / 2 == j && (2 * j + 1) % 2 == 1;
      }
      assert w[base + Reverse(b, 2 * j)] == p[2 * j];
      assert w[base + Reverse(b, 2 * j + 1)] == p[2 * j + 1];
    }
  }

  /** Every stage leaves in each block the values of its polynomial at the powers of the stage's step. */
  lemma {:induction false} BlockIsEval<T(!new)>(R: Ring<T>, steps: seq<T>, w: seq<T>, b: nat, base: nat,
                                                p: seq<T>, k: nat)
    requires Laws(R) && AreTwiddles(R, steps) && b <= |steps|
    requires |p| == Pow2(b) && base + Pow2(b) <= |w| && HoldsReversed(w, base, b, p) && k < Pow2(b)
    ensures Block(R, steps, w, b, base, k) == Eval(R, p, Node(R, steps, b, k))
    decreases b
  {
    hide Laws, AreTwiddles, HoldsReversed, Reverse, Eval, Power;
    if b == 0 {
      SinglePoint(R, w, base, p);
    } else {
      var half := Pow2(b - 1);
      var j := if k < half then k else k - half;
      ReversedHalves(w, base, b, p);
      BlockIsEval(R, steps, w, b - 1, base, Even(p), j);
      BlockIsEval(R, steps, w, b - 1, base + half, Odd(p), j);
      BlockStep(R, steps, b, p, k);
    }
  }

  lemma SinglePoint<T(!new)>(R: Ring<T>, w: seq<T>, base: nat, p: seq<T>)
    requires Laws(R) && HoldsReversed(w, base, 0, p)
    ensures |w| > base && w[base] == Eval(R, p, R.one)
  {
    hide Laws;
    assert w[base + Reverse(0, 0)] == p[0];
    MulZero(R, R.one);
    AddComm(R, p[0], R.zero);
    AddZero(R, p[0]);
    assert Eval(R, p[1..], R.one) == R.zero;
  }

  lemma BlockStep<T(!new)>(R: Ring<T>, steps: seq<T>, b: nat, p: seq<T>, k: nat)
    requires Laws(R) && AreTwiddles(R, steps) && 0 < b <= |steps| && |p| == Pow2(b) && k < Pow2(b)
    ensures var half := Pow2(b - 1);
            var j := if k < half then k else k - half;
            var e, o := Eval(R, Even(p), Node(R, steps, b - 1, j)), Eval(R, Odd(p), Node(R, steps, b - 1, j));
            var t := R.mul(Power(R, steps[b - 1], j), o);
            Eval(R, p, Node(R, steps, b, k)) == if k < half then R.add(e, t) else Sub(R, e, t)
  {
    hide Laws, Power, Eval;
    var half := Pow2(b - 1);
    var j := if k < half then k else k - half;
    var z, y := Power(R, steps[b - 1], j), Power(R, steps[b - 1], k);
    var e, o := Eval(R, Even(p), R.mul(z, z)), Eval(R, Odd(p), R.mul(z, z));
    EvalSplit(R, p, y);
    if k >= half {
      HalfTurn(R, steps, b - 1, j);
      MulNeg(R, z, o);
    }
    SquaredNode(R, steps, b, j);
    if b == 1 {
      EvalConstant(R, Even(p), R.mul(z, z), R.one);
      EvalConstant(R, Odd(p), R.mul(z, z), R.one);
    }
  }

  lemma SquaredNode<T(!new)>(R: Ring<T>, steps: seq<T>, b: nat, j: nat)
    requires Laws(R) && AreTwiddles(R, steps) && 0 < b <= |steps|
    ensures b > 1 ==> R.mul(Power(R, steps[b - 1], j), Power(R, steps[b - 1], j)) == Node(R, steps, b - 1, j)
  {
    hide Laws;
    if b > 1 {
      SquaredPower(R, steps, b - 1, j);
    }
  }

  lemma EvalConstant<T(!new)>(R: Ring<T>, p: seq<T>, y: T, z: T)
    requires Laws(R) && |p| == 1
    ensures Eval(R, p, y) == Eval(R, p, z)
  {
    hide Laws;
    MulZero(R, y);
    MulZero(R, z);
    assert Eval(R, p[1..], y) == R.zero && Eval(R, p[1..], z) == R.zero;
  }

  /** The stages over the bit-reversed input compute the discrete Fourier transform. */
  lemma StagesComputeDft<T(!new)>(R: Ring<T>, steps: seq<T>, x: seq<T>, b: nat, k: nat)
    requires Laws(R) && AreTwiddles(R, steps) && 0 < b <= |steps|
    requires |x| == Pow2(b) && k < Pow2(b)
    ensures Block(R, steps, Reversed(x, b), b, 0, k) == DftSum(R, x, steps[b - 1], k, |x|)
  {
    hide Laws, AreTwiddles, Block, Eval, Power, DftSum;
    var w := Reversed(x, b);
    forall j | 0 <= j < |x|
      ensures w[0 + Reverse(b, j)] == x[j]
    {
      ReverseInvolution(b, j);
    }
    BlockIsEval(R, steps, w, b, 0, x, k);
    EvalIsDftSum(R, x, steps[b - 1], k, |x|);
    assert x[..|x|] == x;
  }
}
