/** Transforming with a root and then with its inverse multiplies every entry by the number of entries. */
module FourierInverse {
  import opened Bits
  import opened Fourier

  /** a added to itself n times. */
  function Times<T>(R: Ring<T>, n: nat, a: T): T {
    if n == 0 then R.zero else R.add(a, Times(R, n - 1, a))
  }

  /** The values of p at the powers of the b-th root. */
  function Spectrum<T>(R: Ring<T>, steps: seq<T>, b: nat, p: seq<T>): (s: seq<T>)
    requires b <= |steps|
    ensures |s| == Pow2(b)
  {
    seq(Pow2(b), k requires 0 <= k < Pow2(b) => Eval(R, p, Node(R, steps, b, k)))
  }

  /** The even or the odd entries. */
  function Half<T>(p: seq<T>, parity: bit): seq<T>
    requires |p| % 2 == 0
  {
    if parity == 0 then Even(p) else Odd(p)
  }

  // ----- evaluation is linear

  function SumOf<T>(R: Ring<T>, p: seq<T>, q: seq<T>): (s: seq<T>)
    requires |p| == |q|
    ensures |s| == |p|
  {
    seq(|p|, j requires 0 <= j < |p| => R.add(p[j], q[j]))
  }

  function NegOf<T>(R: Ring<T>, p: seq<T>): (s: seq<T>)
    ensures |s| == |p|
  {
    seq(|p|, j requires 0 <= j < |p| => R.neg(p[j]))
  }

  /** Entry j multiplied by c w^j. */
  function Scaled<T>(R: Ring<T>, c: T, w: T, p: seq<T>): (s: seq<T>)
    ensures |s| == |p|
  {
    seq(|p|, j requires 0 <= j < |p| => R.mul(R.mul(c, Power(R, w, j)), p[j]))
  }

  lemma {:induction false} EvalConcat<T(!new)>(R: Ring<T>, p: seq<T>, q: seq<T>, z: T)
    requires Laws(R)
    ensures Eval(R, p + q, z) == R.add(Eval(R, p, z), R.mul(Power(R, z, |p|), Eval(R, q, z)))
    decreases |p|
  {
    hide Laws;
    if |p| == 0 {
      assert p + q == q;
      MulOne(R, Eval(R, q, z));
      AddZero(R, Eval(R, q, z));
    } else {
      var e, w, f := Eval(R, p[1..], z), Power(R, z, |p| - 1), Eval(R, q, z);
      EvalConcat(R, p[1..], q, z);
      assert (p + q)[1..] == p[1..] + q;
      Distribute(R, z, e, R.mul(w, f));
      MulAssoc(R, z, w, f);
      AddAssoc(R, p[0], R.mul(z, e), R.mul(R.mul(z, w), f));
    }
  }

  lemma {:induction false} EvalSum<T(!new)>(R: Ring<T>, p: seq<T>, q: seq<T>, z: T)
    requires Laws(R) && |p| == |q|
    ensures Eval(R, SumOf(R, p, q), z) == R.add(Eval(R, p, z), Eval(R, q, z))
    decreases |p|
  {
    hide Laws;
    if |p| == 0 {
      AddZero(R, R.zero);
    } else {
      var e, f := Eval(R, p[1..], z), Eval(R, q[1..], z);
      EvalSum(R, p[1..], q[1..], z);
      assert SumOf(R, p, q)[1..] == SumOf(R, p[1..], q[1..]);
      Distribute(R, z, e, f);
      AddSwap(R, p[0], q[0], R.mul(z, e), R.mul(z, f));
    }
  }

  /** (a + b) + (c + d) regrouped. */
  lemma AddSwap<T(!new)>(R: Ring<T>, a: T, b: T, c: T, d: T)
    requires Laws(R)
    ensures R.add(R.add(a, b), R.add(c, d)) == R.add(R.add(a, c), R.add(b, d))
  {
    hide Laws;
    AddAssoc(R, a, b, R.add(c, d));
    AddAssoc(R, b, c, d);
    AddComm(R, b, c);
    AddAssoc(R, c, b, d);
    AddAssoc(R, a, c, R.add(b, d));
  }

  lemma {:induction false} EvalScaled<T(!new)>(R: Ring<T>, c: T, w: T, p: seq<T>, z: T)
    requires Laws(R)
    ensures Eval(R, Scaled(R, c, w, p), z) == R.mul(c, Eval(R, p, R.mul(w, z)))
    decreases |p|
  {
    hide Laws;
    if |p| == 0 {
      MulZero(R, c);
    } else {
      var e := Eval(R, p[1..], R.mul(w, z));
      EvalScaled(R, R.mul(c, w), w, p[1..], z);
      forall j | 0 <= j < |p| - 1
        ensures R.mul(c, Power(R, w, j + 1)) == R.mul(R.mul(c, w), Power(R, w, j))
      {
        MulAssoc(R, c, w, Power(R, w, j));
      }
      var s := Scaled(R, c, w, p);
      assert s[1..] == Scaled(R, R.mul(c, w), w, p[1..]);
      MulComm(R, c, R.one);
      MulOne(R, c);
      assert s[0] == R.mul(R.mul(c, Power(R, w, 0)), p[0]) == R.mul(c, p[0]);
      assert Eval(R, s, z) == R.add(s[0], R.mul(z, Eval(R, s[1..], z)));
      Shuffle(R, c, w, z, e);
      assert Eval(R, p, R.mul(w, z)) == R.add(p[0], R.mul(R.mul(w, z), e));
      Distribute(R, c, p[0], R.mul(R.mul(w, z), e));
    }
  }

  lemma Shuffle<T(!new)>(R: Ring<T>, c: T, w: T, z: T, e: T)
    requires Laws(R)
    ensures R.mul(z, R.mul(R.mul(c, w), e)) == R.mul(c, R.mul(R.mul(w, z), e))
  {
    hide Laws;
    MulAssoc(R, z, R.mul(c, w), e);
    MulComm(R, z, R.mul(c, w));
    MulAssoc(R, c, w, z);
    MulAssoc(R, c, R.mul(w, z), e);
  }

  lemma EvalNeg<T(!new)>(R: Ring<T>, p: seq<T>, z: T)
    requires Laws(R)
    ensures Eval(R, NegOf(R, p), z) == R.neg(Eval(R, p, z))
  {
    hide Laws, Eval;
    forall j | 0 <= j < |p|
      ensures R.mul(R.mul(R.neg(R.one), Power(R, R.one, j)), p[j]) == R.neg(p[j])
    {
      PowerOfOne(R, j);
      MulComm(R, R.neg(R.one), R.one);
      MulOne(R, R.neg(R.one));
      MulNeg(R, R.one, p[j]);
      MulOne(R, p[j]);
    }
    assert NegOf(R, p) == Scaled(R, R.neg(R.one), R.one, p);
    EvalScaled(R, R.neg(R.one), R.one, p, z);
    MulOne(R, z);
    var e := Eval(R, p, z);
    MulNeg(R, R.one, e);
    MulOne(R, e);
  }

  lemma {:induction false} PowerOfOne<T(!new)>(R: Ring<T>, n: nat)
    requires Laws(R)
    ensures Power(R, R.one, n) == R.one
  {
    hide Laws;
    if n != 0 {
      PowerOfOne(R, n - 1);
      MulOne(R, R.one);
    }
  }

  lemma {:induction false} TimesAdd<T(!new)>(R: Ring<T>, m: nat, n: nat, a: T)
    requires Laws(R)
    ensures Times(R, m + n, a) == R.add(Times(R, m, a), Times(R, n, a))
  {
    hide Laws;
    if m == 0 {
      AddZero(R, Times(R, n, a));
    } else {
      TimesAdd(R, m - 1, n, a);
      AddAssoc(R, a, Times(R, m - 1, a), Times(R, n, a));
    }
  }

  // ----- the inverse

  /** The two lists of roots are inverse to each other, step by step. */
  ghost predicate AreInverse<T>(R: Ring<T>, steps: seq<T>, back: seq<T>) {
    |steps| == |back| && forall b | 0 <= b < |steps| :: R.mul(steps[b], back[b]) == R.one
  }

  /** The spectrum of p from those of its even and odd halves: their sum, then their difference. */
  lemma SpectrumSplits<T(!new)>(R: Ring<T>, steps: seq<T>, b: nat, p: seq<T>)
    requires Laws(R) && AreTwiddles(R, steps) && 0 < b <= |steps| && |p| == Pow2(b)
    ensures var e := Spectrum(R, steps, b - 1, Even(p));
            var t := Scaled(R, R.one, steps[b - 1], Spectrum(R, steps, b - 1, Odd(p)));
            Spectrum(R, steps, b, p) == SumOf(R, e, t) + SumOf(R, e, NegOf(R, t))
  {
    hide Laws, Power, Eval, AreTwiddles;
    var half := Pow2(b - 1);
    var e := Spectrum(R, steps, b - 1, Even(p));
    var o := Spectrum(R, steps, b - 1, Odd(p));
    var t := Scaled(R, R.one, steps[b - 1], o);
    var s, u := Spectrum(R, steps, b, p), SumOf(R, e, t) + SumOf(R, e, NegOf(R, t));
    forall k | 0 <= k < 2 * half
      ensures s[k] == u[k]
    {
      var j := if k < half then k else k - half;
      BlockStep(R, steps, b, p, k);
      MulOne(R, Power(R, steps[b - 1], j));
      assert t[j] == R.mul(Power(R, steps[b - 1], j), o[j]);
    }
    assert s == u;
  }

  /** Evaluating a sum followed by a difference where the half-way power is one, or minus one. */
  lemma FoldedSum<T(!new)>(R: Ring<T>, e: seq<T>, t: seq<T>, z: T)
    requires Laws(R) && |e| == |t|
    ensures var x, y := Eval(R, e, z), Eval(R, t, z);
            var v := Eval(R, SumOf(R, e, t) + SumOf(R, e, NegOf(R, t)), z);
            && (Power(R, z, |e|) == R.one ==> v == R.add(x, x))
            && (Power(R, z, |e|) == R.neg(R.one) ==> v == R.add(y, y))
  {
    hide Laws, Eval, Power;
    var x, y := Eval(R, e, z), Eval(R, t, z);
    EvalConcat(R, SumOf(R, e, t), SumOf(R, e, NegOf(R, t)), z);
    EvalSum(R, e, t, z);
    EvalSum(R, e, NegOf(R, t), z);
    EvalNeg(R, t, z);
    var d := R.add(x, R.neg(y));
    MulOne(R, d);
    MulNeg(R, R.one, d);
    SumAndDifference(R, x, y);
  }

  lemma SumAndDifference<T(!new)>(R: Ring<T>, x: T, y: T)
    requires Laws(R)
    ensures R.add(R.add(x, y), R.add(x, R.neg(y))) == R.add(x, x)
    ensures R.add(R.add(x, y), R.neg(R.add(x, R.neg(y)))) == R.add(y, y)
  {
    hide Laws;
    AddSwap(R, x, y, x, R.neg(y));
    AddNeg(R, y);
    AddComm(R, R.add(x, x), R.zero);
    AddZero(R, R.add(x, x));
    NegOfSum(R, x, R.neg(y));
    NegNeg(R, y);
    AddSwap(R, x, y, R.neg(x), y);
    AddNeg(R, x);
    AddZero(R, R.add(y, y));
  }

  lemma NegOfSum<T(!new)>(R: Ring<T>, x: T, y: T)
    requires Laws(R)
    ensures R.neg(R.add(x, y)) == R.add(R.neg(x), R.neg(y))
  {
    hide Laws;
    AddSwap(R, x, y, R.neg(x), R.neg(y));
    AddNeg(R, x);
    AddNeg(R, y);
    AddZero(R, R.zero);
    AddNeg(R, R.add(x, y));
    AddCancel(R, R.add(x, y), R.neg(R.add(x, y)), R.add(R.neg(x), R.neg(y)));
  }

  /** The half-way power of the l-th power of a root is one for even l and minus one for odd l. */
  lemma {:induction false} HalfWay<T(!new)>(R: Ring<T>, back: seq<T>, b: nat, l: nat)
    requires Laws(R) && AreTwiddles(R, back) && b < |back|
    ensures Power(R, Power(R, back[b], l), Pow2(b)) == if l % 2 == 0 then R.one else R.neg(R.one)
  {
    hide Laws;
    var h := Pow2(b);
    PowerPower(R, back[b], l, h);
    PowerPower(R, back[b], h, l);
    assert h * l == l * h;
    TwiddleIsRoot(R, back, b);
    PowersOfMinusOne(R, l);
  }

  lemma {:induction false} PowersOfMinusOne<T(!new)>(R: Ring<T>, l: nat)
    requires Laws(R)
    ensures Power(R, R.neg(R.one), l) == if l % 2 == 0 then R.one else R.neg(R.one)
  {
    hide Laws;
    if l != 0 {
      var q := Power(R, R.neg(R.one), l - 1);
      PowersOfMinusOne(R, l - 1);
      MulNeg(R, R.one, q);
      MulOne(R, q);
      NegNeg(R, R.one);
    }
  }

  /** The even power, and the odd power times the root it inverts, are powers of the root before. */
  lemma RootBefore<T(!new)>(R: Ring<T>, steps: seq<T>, back: seq<T>, b: nat, m: nat)
    requires Laws(R) && AreTwiddles(R, back) && AreInverse(R, steps, back) && 0 < b <= |back| && m < Pow2(b - 1)
    ensures Power(R, back[b - 1], 2 * m) == Node(R, back, b - 1, m)
    ensures R.mul(steps[b - 1], Power(R, back[b - 1], 2 * m + 1)) == Node(R, back, b - 1, m)
  {
    hide Laws;
    var z, w := back[b - 1], steps[b - 1];
    PowerAdd(R, z, m, m);
    PowerOfSquare(R, z, m);
    MulAssoc(R, w, z, Power(R, z, 2 * m));
    MulOne(R, Power(R, z, 2 * m));
  }

  /** Evaluating a spectrum where the half-way power is one, or minus one. */
  lemma FoldedSpectrum<T(!new)>(R: Ring<T>, steps: seq<T>, b: nat, p: seq<T>, z: T)
    requires Laws(R) && AreTwiddles(R, steps) && 0 < b <= |steps| && |p| == Pow2(b)
    ensures var x := Eval(R, Spectrum(R, steps, b - 1, Even(p)), z);
            Power(R, z, Pow2(b - 1)) == R.one ==> Eval(R, Spectrum(R, steps, b, p), z) == R.add(x, x)
    ensures var y := Eval(R, Spectrum(R, steps, b - 1, Odd(p)), R.mul(steps[b - 1], z));
            Power(R, z, Pow2(b - 1)) == R.neg(R.one) ==> Eval(R, Spectrum(R, steps, b, p), z) == R.add(y, y)
  {
    assert |p| % 2 == 0;
    hide Laws, AreTwiddles, Eval, Power, Spectrum, Scaled, SumOf, NegOf, Even, Odd, Pow2;
    var w, e, o := steps[b - 1], Spectrum(R, steps, b - 1, Even(p)), Spectrum(R, steps, b - 1, Odd(p));
    SpectrumSplits(R, steps, b, p);
    FoldedSum(R, e, Scaled(R, R.one, w, o), z);
    EvalScaled(R, R.one, w, o, z);
    MulOne(R, Eval(R, o, R.mul(w, z)));
  }

  /** The even entries come from the spectrum of the even half, the odd entries from that of the odd half. */
  lemma UnfoldEntry<T(!new)>(R: Ring<T>, steps: seq<T>, back: seq<T>, b: nat, p: seq<T>, l: nat)
    requires Laws(R) && AreTwiddles(R, steps) && AreTwiddles(R, back) && AreInverse(R, steps, back)
    requires 0 < b <= |steps| == |back| && |p| == Pow2(b) && l < Pow2(b)
    ensures var x := Eval(R, Spectrum(R, steps, b - 1, Half(p, l % 2)),
                          Node(R, back, b - 1, l / 2));
            Eval(R, Spectrum(R, steps, b, p), Node(R, back, b, l)) == R.add(x, x)
  {
    hide Laws, AreTwiddles, AreInverse, Eval, Power, Spectrum, Node, Even, Odd;
    FoldedSpectrum(R, steps, b, p, Node(R, back, b, l));
    NodesBack(R, steps, back, b, l);
  }

  lemma NodesBack<T(!new)>(R: Ring<T>, steps: seq<T>, back: seq<T>, b: nat, l: nat)
    requires Laws(R) && AreTwiddles(R, back) && AreInverse(R, steps, back)
    requires 0 < b <= |steps| == |back| && l < Pow2(b)
    ensures var z, y := Node(R, back, b, l), Node(R, back, b - 1, l / 2);
            && Power(R, z, Pow2(b - 1)) == (if l % 2 == 0 then R.one else R.neg(R.one))
            && y == (if l % 2 == 0 then z else R.mul(steps[b - 1], z))
  {
    hide Laws, AreTwiddles, AreInverse, Power, Node;
    var m := l / 2;
    RootBefore(R, steps, back, b, m);
    NodeIsPower(R, back, b, l);
    HalfWay(R, back, b - 1, l);
    if l % 2 == 0 {
      assert l == 2 * m;
    } else {
      assert l == 2 * m + 1;
    }
  }

  lemma InverseStep<T(!new)>(R: Ring<T>, steps: seq<T>, back: seq<T>, b: nat, p: seq<T>, l: nat, a: T)
    requires Laws(R) && AreTwiddles(R, steps) && AreTwiddles(R, back) && AreInverse(R, steps, back)
    requires 0 < b <= |steps| == |back| && |p| == Pow2(b) && l < Pow2(b)
    requires Eval(R, Spectrum(R, steps, b - 1, Half(p, l % 2)), Node(R, back, b - 1, l / 2)) == Times(R, Pow2(b - 1), a)
    ensures Eval(R, Spectrum(R, steps, b, p), Node(R, back, b, l)) == Times(R, Pow2(b), a)
  {
    hide Laws, AreTwiddles, AreInverse, Eval, Power, Times, Spectrum, Node, Half;
    UnfoldEntry(R, steps, back, b, p, l);
    TimesAdd(R, Pow2(b - 1), Pow2(b - 1), a);
  }

  /** Orthogonality: the inverse transform of the transform of p is 2^b times p. */
  lemma {:induction false} InverseOfSpectrum<T(!new)>(R: Ring<T>, steps: seq<T>, back: seq<T>, b: nat,
                                                      p: seq<T>, l: nat)
    requires Laws(R) && AreTwiddles(R, steps) && AreTwiddles(R, back) && AreInverse(R, steps, back)
    requires b <= |steps| == |back| && |p| == Pow2(b) && l < Pow2(b)
    ensures Eval(R, Spectrum(R, steps, b, p), Node(R, back, b, l)) == Times(R, Pow2(b), p[l])
    decreases b
  {
    hide Laws, AreTwiddles, AreInverse, Eval, Power, Times, Spectrum, Node, Half;
    if b == 0 {
      OnePoint(R, steps, back, p);
    } else {
      HalfEntry(p, l);
      InverseOfSpectrum(R, steps, back, b - 1, Half(p, l % 2), l / 2);
      InverseStep(R, steps, back, b, p, l, p[l]);
    }
  }

  lemma HalfEntry<T>(p: seq<T>, l: nat)
    requires |p| % 2 == 0 && l < |p|
    ensures l / 2 < |Half(p, l % 2)| == |p| / 2 && Half(p, l % 2)[l / 2] == p[l]
  {
    if l % 2 == 0 {
      assert l == 2 * (l / 2);
    } else {
      assert l == 2 * (l / 2) + 1;
    }
  }

  lemma NodeIsPower<T(!new)>(R: Ring<T>, steps: seq<T>, b: nat, k: nat)
    requires 0 < b <= |steps|
    ensures Node(R, steps, b, k) == Power(R, steps[b - 1], k)
  {
  }

  lemma OnePoint<T(!new)>(R: Ring<T>, steps: seq<T>, back: seq<T>, p: seq<T>)
    requires Laws(R) && |p| == 1
    ensures Eval(R, Spectrum(R, steps, 0, p), Node(R, back, 0, 0)) == Times(R, 1, p[0])
  {
    hide Laws;
    MulZero(R, R.one);
    AddComm(R, p[0], R.zero);
    AddZero(R, p[0]);
    assert p[1..] == [] && Eval(R, p, R.one) == p[0];
    var s := Spectrum(R, steps, 0, p);
    assert s[0] == p[0] && s[1..] == [] && Eval(R, s, R.one) == p[0];
  }
}
