/** The iterative in-place transform of the source, on interleaved pairs of exact reals. */
module Fft {
  import opened Arithmetic
  import opened Bits
  import opened BitReversal
  import opened Fourier
  import opened FourierInverse

  /** The complex numbers. */
  const C: Ring<complex> := Ring(
    Complex(0.0, 0.0),
    Complex(1.0, 0.0),
    (a: complex, b: complex) => Complex(a.re + b.re, a.im + b.im),
    (a: complex) => Complex(-a.re, -a.im),
    (a: complex, b: complex) => Complex(a.re * b.re - a.im * b.im, a.re * b.im + a.im * b.re))

  lemma ComplexMulAssoc(a: complex, b: complex, c: complex)
    ensures C.mul(C.mul(a, b), c) == C.mul(a, C.mul(b, c))
  {
  }

  lemma ComplexDistribute(a: complex, b: complex, c: complex)
    ensures C.mul(a, C.add(b, c)) == C.add(C.mul(a, b), C.mul(a, c))
  {
  }

  lemma ComplexMulComm(a: complex, b: complex)
    ensures C.mul(a, b) == C.mul(b, a)
  {
  }

  lemma ComplexLaws()
    ensures Laws(C)
  {
    forall a, b, c
      ensures C.mul(C.mul(a, b), c) == C.mul(a, C.mul(b, c))
      ensures C.mul(a, C.add(b, c)) == C.add(C.mul(a, b), C.mul(a, c))
    {
      ComplexMulAssoc(a, b, c);
      ComplexDistribute(a, b, c);
    }
    forall a, b
      ensures C.mul(a, b) == C.mul(b, a)
    {
      ComplexMulComm(a, b);
    }
  }

  // ----- stages as whole arrays

  /** Entry h of the q-th run of d entries. */
  function Cell(x: seq<complex>, d: nat, q: nat, h: nat): complex {
    if q * d + h < |x| then x[q * d + h] else C.zero
  }

  /** Entry k of the block of 2^b entries at base after b stages, where it exists. */
  function BlockAt(steps: seq<complex>, w: seq<complex>, b: nat, base: nat, k: nat): complex {
    if b <= |steps| && k < Pow2(b) && base + Pow2(b) <= |w| then Block(C, steps, w, b, base, k) else C.zero
  }

  /** Every block of 2^b entries is finished. */
  ghost predicate AtStage(x: seq<complex>, steps: seq<complex>, w: seq<complex>, m: nat, b: nat)
    requires b <= m
  {
    forall q, k | 0 <= q < Pow2(m - b) && 0 <= k < Pow2(b) ::
      Cell(x, Pow2(b), q, k) == BlockAt(steps, w, b, q * Pow2(b), k)
  }

  /** Pair (q, k) of stage b has been combined once columns below a, and rows below r of column a, are done. */
  predicate Combined(b: nat, q: nat, k: nat, a: nat, r: nat) {
    var column := if k < Pow2(b) then k else k - Pow2(b);
    column < a || (column == a && q < r)
  }

  function Unfinished(steps: seq<complex>, w: seq<complex>, b: nat, q: nat, k: nat): complex {
    if k < Pow2(b) then BlockAt(steps, w, b, q * Pow2(b + 1), k)
    else BlockAt(steps, w, b, q * Pow2(b + 1) + Pow2(b), k - Pow2(b))
  }

  ghost predicate Within(x: seq<complex>, steps: seq<complex>, w: seq<complex>, m: nat, b: nat, a: nat, r: nat)
    requires b < m
  {
    forall q, k | 0 <= q < Pow2(m - b - 1) && 0 <= k < Pow2(b + 1) ::
      Cell(x, Pow2(b + 1), q, k) ==
      if Combined(b, q, k, a, r) then BlockAt(steps, w, b + 1, q * Pow2(b + 1), k) else Unfinished(steps, w, b, q, k)
  }

  lemma {:induction false} Pow2Split(m: nat, b: nat)
    requires b <= m
    ensures Pow2(m) == Pow2(m - b) * Pow2(b)
  {
    if b < m {
      Pow2Split(m - 1, b);
    }
  }

  lemma StageStarts(x: seq<complex>, steps: seq<complex>, w: seq<complex>, m: nat, b: nat)
    requires b < m && AtStage(x, steps, w, m, b)
    ensures Within(x, steps, w, m, b, 0, 0)
  {
    hide BlockAt, Cell, Unfinished, AtStage, Pow2;
    var d := Pow2(b + 1);
    forall q, k | 0 <= q < Pow2(m - b - 1) && 0 <= k < d
      ensures Cell(x, d, q, k) == Unfinished(steps, w, b, q, k)
    {
      EntryStarts(x, steps, w, m, b, q, k);
    }
  }

  lemma EntryStarts(x: seq<complex>, steps: seq<complex>, w: seq<complex>, m: nat, b: nat, q: nat, k: nat)
    requires b < m && AtStage(x, steps, w, m, b) && q < Pow2(m - b - 1) && k < Pow2(b + 1)
    ensures Cell(x, Pow2(b + 1), q, k) == Unfinished(steps, w, b, q, k)
  {
    hide BlockAt, Pow2;
    var d, e := Pow2(b), Pow2(b + 1);
    Doubling(b);
    Doubling(m - b - 1);
    assert q * e == (2 * q) * d && (2 * q + 1) * d == (2 * q) * d + d;
    if k < d {
      assert Cell(x, d, 2 * q, k) == BlockAt(steps, w, b, (2 * q) * d, k);
    } else {
      assert Cell(x, d, 2 * q + 1, k - d) == BlockAt(steps, w, b, (2 * q + 1) * d, k - d);
    }
  }

  lemma ColumnEnds(x: seq<complex>, steps: seq<complex>, w: seq<complex>, m: nat, b: nat, a: nat)
    requires b < m && Within(x, steps, w, m, b, a, Pow2(m - b - 1))
    ensures Within(x, steps, w, m, b, a + 1, 0)
  {
    hide BlockAt, Unfinished, Cell, Pow2;
    var rows, next := Pow2(m - b - 1), a + 1;
    forall q, k | 0 <= q < rows && 0 <= k < Pow2(b + 1)
      ensures Combined(b, q, k, a, rows) == Combined(b, q, k, next, 0)
    {
    }
  }

  lemma StageEnds(x: seq<complex>, steps: seq<complex>, w: seq<complex>, m: nat, b: nat)
    requires b < m && Within(x, steps, w, m, b, Pow2(b), 0)
    ensures AtStage(x, steps, w, m, b + 1)
  {
    hide BlockAt, Unfinished, Cell, Within, Pow2, Combined;
    var d := Pow2(b + 1);
    forall q, k | 0 <= q < Pow2(m - (b + 1)) && 0 <= k < d
      ensures Cell(x, d, q, k) == BlockAt(steps, w, b + 1, q * d, k)
    {
      WithinAt(x, steps, w, m, b, Pow2(b), 0, q, k);
      AllCombined(b, q, k);
    }
  }

  lemma AllCombined(b: nat, q: nat, k: nat)
    requires k < Pow2(b + 1)
    ensures Combined(b, q, k, Pow2(b), 0)
  {
  }

  /** One butterfly finishes pair (r, a). */
  lemma PairCombines(x: seq<complex>, y: seq<complex>, steps: seq<complex>, w: seq<complex>,
                     m: nat, b: nat, a: nat, r: nat)
    requires b < m && b < |steps| && |w| == |x| == Pow2(m) && a < Pow2(b) && r < Pow2(m - b - 1)
    requires Within(x, steps, w, m, b, a, r)
    requires var i := r * Pow2(b + 1) + a;
             var j := i + Pow2(b);
             && j < |x|
             && var t := C.mul(Power(C, steps[b], a), x[j]);
             y == x[j := Sub(C, x[i], t)][i := C.add(x[i], t)]
    ensures Within(y, steps, w, m, b, a, r + 1)
  {
    hide BlockAt, Unfinished, Power, Pow2, Within, Combined, Cell, C, Sub;
    var d, h := Pow2(b + 1), Pow2(b);
    Doubling(b);
    FinishedPair(x, steps, w, m, b, a, r);
    forall q, k | 0 <= q < Pow2(m - b - 1) && 0 <= k < d
      ensures Cell(y, d, q, k) ==
              if Combined(b, q, k, a, r + 1) then BlockAt(steps, w, b + 1, q * d, k) else Unfinished(steps, w, b, q, k)
    {
      PairIsNext(b, q, k, a, r);
      WithinAt(x, steps, w, m, b, a, r, q, k);
      if q == r && (k == a || k == a + h) {
        CellAt(y, d, q, k);
      } else {
        OtherPair(x, y, d, h, q, k, r, a);
      }
    }
    WithinFrom(y, steps, w, m, b, a, r + 1);
  }

  lemma CellAt(x: seq<complex>, d: nat, q: nat, h: nat)
    ensures Cell(x, d, q, h) == if q * d + h < |x| then x[q * d + h] else Cell(x, d, q, h)
  {
  }

  lemma Doubling(b: nat)
    ensures Pow2(b + 1) == 2 * Pow2(b)
  {
  }

  /** Row r of column a is the only pair whose status changes. */
  lemma PairIsNext(b: nat, q: nat, k: nat, a: nat, r: nat)
    requires a < Pow2(b) && k < Pow2(b + 1)
    ensures Combined(b, q, k, a, r + 1) <==> (Combined(b, q, k, a, r) || (q == r && (k == a || k == a + Pow2(b))))
  {
  }

  lemma OtherPair(x: seq<complex>, y: seq<complex>, d: nat, h: nat, q: nat, k: nat, r: nat, a: nat)
    requires d == 2 * h && a < h && k < d && !(q == r && (k == a || k == a + h))
    requires |x| == |y| && forall i | 0 <= i < |x| && i != r * d + a && i != r * d + a + h :: y[i] == x[i]
    ensures Cell(y, d, q, k) == Cell(x, d, q, k)
  {
    RunsDiffer(d, q, k, r, a);
    RunsDiffer(d, q, k, r, a + h);
  }

  lemma WithinAt(x: seq<complex>, steps: seq<complex>, w: seq<complex>, m: nat, b: nat, a: nat, r: nat, q: nat, k: nat)
    requires b < m && Within(x, steps, w, m, b, a, r) && q < Pow2(m - b - 1) && k < Pow2(b + 1)
    ensures Cell(x, Pow2(b + 1), q, k) ==
            if Combined(b, q, k, a, r) then BlockAt(steps, w, b + 1, q * Pow2(b + 1), k)
            else Unfinished(steps, w, b, q, k)
  {
  }

  lemma WithinFrom(x: seq<complex>, steps: seq<complex>, w: seq<complex>, m: nat, b: nat, a: nat, r: nat)
    requires b < m
    requires forall q, k | 0 <= q < Pow2(m - b - 1) && 0 <= k < Pow2(b + 1) ::
               Cell(x, Pow2(b + 1), q, k) ==
               if Combined(b, q, k, a, r) then BlockAt(steps, w, b + 1, q * Pow2(b + 1), k)
               else Unfinished(steps, w, b, q, k)
    ensures Within(x, steps, w, m, b, a, r)
  {
  }

  lemma FinishedPair(x: seq<complex>, steps: seq<complex>, w: seq<complex>, m: nat, b: nat, a: nat, r: nat)
    requires b < m && b < |steps| && |w| == |x| == Pow2(m) && a < Pow2(b) && r < Pow2(m - b - 1)
    requires Within(x, steps, w, m, b, a, r)
    ensures var d, i := Pow2(b + 1), r * Pow2(b + 1) + a;
            var j := i + Pow2(b);
            && j < |x|
            && var t := C.mul(Power(C, steps[b], a), x[j]);
            && BlockAt(steps, w, b + 1, r * d, a) == C.add(x[i], t)
            && BlockAt(steps, w, b + 1, r * d, a + Pow2(b)) == Sub(C, x[i], t)
  {
    hide Power, C, Within, BlockAt, Unfinished, Combined, Cell, Sub, Pow2;
    var d, h := Pow2(b + 1), Pow2(b);
    Doubling(b);
    PairFits(m, b, r);
    WithinAt(x, steps, w, m, b, a, r, r, a);
    WithinAt(x, steps, w, m, b, a, r, r, a + h);
    NotYetCombined(b, a, r);
    CellAt(x, d, r, a);
    CellAt(x, d, r, a + h);
    BlockFromHalves(steps, w, b, r * d, a);
    UnfinishedHalves(steps, w, b, r, a);
  }

  lemma PairFits(m: nat, b: nat, r: nat)
    requires b < m && r < Pow2(m - b - 1)
    ensures r * Pow2(b + 1) + Pow2(b + 1) <= Pow2(m)
  {
    Pow2Split(m, b + 1);
    RoomFor(r, Pow2(m - b - 1), Pow2(b + 1));
  }

  lemma NotYetCombined(b: nat, a: nat, r: nat)
    requires a < Pow2(b)
    ensures !Combined(b, r, a, a, r) && !Combined(b, r, a + Pow2(b), a, r)
  {
  }

  lemma UnfinishedHalves(steps: seq<complex>, w: seq<complex>, b: nat, r: nat, a: nat)
    requires a < Pow2(b)
    ensures Unfinished(steps, w, b, r, a) == BlockAt(steps, w, b, r * Pow2(b + 1), a)
    ensures Unfinished(steps, w, b, r, a + Pow2(b)) == BlockAt(steps, w, b, r * Pow2(b + 1) + Pow2(b), a)
  {
    hide BlockAt;
  }

  lemma BlockFromHalves(steps: seq<complex>, w: seq<complex>, b: nat, base: nat, a: nat)
    requires b < |steps| && a < Pow2(b) && base + Pow2(b + 1) <= |w|
    ensures var e, o := BlockAt(steps, w, b, base, a), BlockAt(steps, w, b, base + Pow2(b), a);
            var t := C.mul(Power(C, steps[b], a), o);
            && BlockAt(steps, w, b + 1, base, a) == C.add(e, t)
            && BlockAt(steps, w, b + 1, base, a + Pow2(b)) == Sub(C, e, t)
  {
    hide Power, C, Sub;
    Doubling(b);
  }

  // ----- the loops

  /** One step of the twiddle recurrence multiplies by 1 - s2 + i s. */
  lemma TwiddleRecurrence(wReal: real, wImag: real, s: real, s2: real)
    ensures C.mul(Complex(1.0 - s2, s), Complex(wReal, wImag)) ==
            Complex(wReal - (s * wImag + s2 * wReal), wImag + (s * wReal - s2 * wImag))
  {
  }

  lemma PointAt(w: seq<real>, i: nat)
    requires |w| % 2 == 0 && i < |w| / 2
    ensures Points(w)[i] == Complex(w[2 * i], w[2 * i + 1])
  {
  }

  lemma SetPoint(w: seq<real>, i: nat, re: real, im: real)
    requires |w| % 2 == 0 && i < |w| / 2
    ensures Points(w[2 * i := re][2 * i + 1 := im]) == Points(w)[i := Complex(re, im)]
  {
  }

  /** Combines entries i and j with the twiddle factor (wReal, wImag), in place. */
  method CombinePair(data: array<real>, i: nat, j: nat, wReal: real, wImag: real)
    requires data.Length % 2 == 0 && i < j < data.Length / 2
    modifies data
    ensures var x := old(Points(data[..]));
            var t := C.mul(Complex(wReal, wImag), x[j]);
            Points(data[..]) == x[j := Sub(C, x[i], t)][i := C.add(x[i], t)]
  {
    ghost var w, x := data[..], Points(data[..]);
    PointAt(w, i);
    PointAt(w, j);
    hide Points;
    var zReal, zImag := data[2 * j], data[2 * j + 1];
    var tReal := wReal * zReal - wImag * zImag;
    var tImag := wReal * zImag + wImag * zReal;
    ghost var t := C.mul(Complex(wReal, wImag), x[j]);
    assert t == Complex(tReal, tImag);
    data[2 * j] := data[2 * i] - tReal;
    data[2 * j + 1] := data[2 * i + 1] - tImag;
    SetPoint(w, j, w[2 * i] - tReal, w[2 * i + 1] - tImag);
    ghost var w' := data[..];
    data[2 * i] := data[2 * i] + tReal;
    data[2 * i + 1] := data[2 * i + 1] + tImag;
    SetPoint(w', i, w[2 * i] + tReal, w[2 * i + 1] + tImag);
  }

  /** One stage: every column in turn, with its own power of the stage's step. */
  method RunStage(data: array<real>, n: nat, m: nat, bit: nat, len: nat, s: real, s2: real,
                  ghost steps: seq<complex>, ghost w: seq<complex>)
    requires bit < m && n == Pow2(m) == |w| && data.Length == 2 * n && len == Pow2(bit)
    requires bit < |steps| && steps[bit] == Complex(1.0 - s2, s)
    requires Within(Points(data[..]), steps, w, m, bit, 0, 0)
    modifies data
    ensures Within(Points(data[..]), steps, w, m, bit, len, 0)
  {
    hide Within, C, Power, Points, Pow2;
    var wReal, wImag := 1.0, 0.0;
    One();
    NoFactor(steps[bit]);
    for a := 0 to len
      invariant Complex(wReal, wImag) == Power(C, steps[bit], a)
      invariant Within(Points(data[..]), steps, w, m, bit, a, 0)
    {
      RunColumn(data, n, m, bit, len, a, wReal, wImag, steps, w);
      // the factor of the next column
      TwiddleRecurrence(wReal, wImag, s, s2);
      NextFactor(steps[bit], a);
      var tReal := wReal - (s * wImag + s2 * wReal);
      var tImag := wImag + (s * wReal - s2 * wImag);
      wReal, wImag := tReal, tImag;
    }
  }

  lemma NoFactor(z: complex)
    ensures Power(C, z, 0) == C.one
  {
  }

  lemma NextFactor(z: complex, a: nat)
    ensures Power(C, z, a + 1) == C.mul(z, Power(C, z, a))
  {
    hide C;
  }

  lemma One()
    ensures C.one == Complex(1.0, 0.0)
  {
  }

  /** One column of a stage: the same entry of every block. */
  method RunColumn(data: array<real>, n: nat, m: nat, bit: nat, len: nat, a: nat, wReal: real, wImag: real,
                   ghost steps: seq<complex>, ghost w: seq<complex>)
    requires bit < m && n == Pow2(m) == |w| && data.Length == 2 * n && len == Pow2(bit) && a < len
    requires bit < |steps| && Complex(wReal, wImag) == Power(C, steps[bit], a)
    requires Within(Points(data[..]), steps, w, m, bit, a, 0)
    modifies data
    ensures Within(Points(data[..]), steps, w, m, bit, a + 1, 0)
  {
    hide Within, C, Power, Pow2, Points;
    ghost var rows, r := Pow2(m - bit - 1), 0;
    Pow2Split(m, bit + 1);
    Doubling(bit);
    assert n == rows * (2 * len);
    var b := 0;
    while b < n
      invariant 0 <= r <= rows && b == r * (2 * len)
      invariant Within(Points(data[..]), steps, w, m, bit, a, r)
      decreases rows - r
    {
      RowsRemain(r, rows, 2 * len);
      RoomFor(r, rows, 2 * len);
      assert r * (2 * len) + 2 * len == (r + 1) * (2 * len);
      var i, j := b + a, b + a + len;
      ghost var x := Points(data[..]);
      CombinePair(data, i, j, wReal, wImag);
      PairCombines(x, Points(data[..]), steps, w, m, bit, a, r);
      r := r + 1;
      b := b + 2 * len;
    }
    if r < rows {
      RoomFor(r, rows, 2 * len);
      assert false;
    }
    ColumnEnds(Points(data[..]), steps, w, m, bit, a);
  }

  lemma RowsRemain(r: nat, rows: nat, d: nat)
    requires r * d < rows * d
    ensures r < rows
  {
    if r >= rows {
      MultiplesGrow(rows, r, d);
      assert false;
    }
  }

  /** The exact twiddle step of a stage, from sin(theta) and sin(theta / 2). */
  function Step(sine: real, halfSine: real): complex {
    Complex(1.0 - 2.0 * halfSine * halfSine, sine)
  }

  function Steps(sines: seq<real>, halfSines: seq<real>): (steps: seq<complex>)
    requires |sines| == |halfSines|
    ensures |steps| == |sines|
  {
    seq(|sines|, b requires 0 <= b < |sines| => Step(sines[b], halfSines[b]))
  }

  /**
   What is known of the sines without computing them: stage b works with the angle sign * pi / 2^b, so that stage 0
   has half a turn and each later one half the angle of the one before.  cosines has one more entry, for the last
   half angle.
   */
  ghost predicate AreHalvedAngles(sines: seq<real>, halfSines: seq<real>, cosines: seq<real>) {
    && |sines| == |halfSines| == |cosines| - 1
    && cosines[0] == -1.0 && (|sines| > 0 ==> sines[0] == 0.0)
    && (forall b | 0 <= b < |sines| - 1 :: halfSines[b] == sines[b + 1])
    && forall b | 0 <= b < |sines| :: HalvesAngle(sines[b], cosines[b], halfSines[b], cosines[b + 1])
  }

  /** s and c are the sine and the cosine of an angle, h and d those of half of it. */
  predicate HalvesAngle(s: real, c: real, h: real, d: real) {
    h * h + d * d == 1.0 && s == 2.0 * h * d && c == d * d - h * h
  }

  lemma StepOfHalvedAngle(s: real, c: real, h: real, d: real)
    requires HalvesAngle(s, c, h, d)
    ensures Step(s, h) == Complex(c, s) && C.mul(Complex(d, h), Complex(d, h)) == Complex(c, s)
  {
    assert 2.0 * h * h == 2.0 * (h * h);
    assert d * h + h * d == 2.0 * h * d;
  }

  /** With these values the steps are the points of the unit circle at those angles, and exact. */
  lemma HalvedAnglesAreTwiddles(sines: seq<real>, halfSines: seq<real>, cosines: seq<real>)
    requires AreHalvedAngles(sines, halfSines, cosines)
    ensures forall b | 0 <= b < |sines| :: Steps(sines, halfSines)[b] == Complex(cosines[b], sines[b])
    ensures AreTwiddles(C, Steps(sines, halfSines))
  {
    hide Step, HalvesAngle, C;
    var steps := Steps(sines, halfSines);
    forall b | 0 <= b < |sines|
      ensures steps[b] == Complex(cosines[b], sines[b])
      ensures b > 0 ==> C.mul(steps[b], steps[b]) == steps[b - 1]
    {
      StepOfHalvedAngle(sines[b], cosines[b], halfSines[b], cosines[b + 1]);
      if b > 0 {
        StepOfHalvedAngle(sines[b - 1], cosines[b - 1], halfSines[b - 1], cosines[b]);
      }
    }
    forall b | 0 <= b < |steps| - 1
      ensures C.mul(steps[b + 1], steps[b + 1]) == steps[b]
    {
      var c := b + 1;
      assert C.mul(steps[c], steps[c]) == steps[c - 1];
    }
    MinusOne();
  }

  lemma MinusOne()
    ensures C.neg(C.one) == Complex(-1.0, 0.0)
  {
  }

  lemma SameRoot(x: real, y: real)
    requires x * x == y * y && ((x >= 0.0 && y >= 0.0) || (x <= 0.0 && y <= 0.0))
    ensures x == y
  {
    assert (x - y) * (x + y) == 0.0;
    ProductIsZero(x - y, x + y);
  }

  /** The half angles lie on the side of the sign, and no further than a quarter turn away. */
  ghost predicate OnSide(halfSines: seq<real>, cosines: seq<real>, positive: bool)
    requires |cosines| == |halfSines| + 1
  {
    && (forall b | 0 <= b < |halfSines| :: if positive then halfSines[b] >= 0.0 else halfSines[b] <= 0.0)
    && forall b | 0 <= b < |cosines| :: b == 0 || cosines[b] >= 0.0
  }

  /** These single out one table: that of the angles sign * pi / 2^b. */
  lemma {:induction false} AnglesAreUnique(s: seq<real>, h: seq<real>, c: seq<real>,
                                           s': seq<real>, h': seq<real>, c': seq<real>, positive: bool, b: nat)
    requires AreHalvedAngles(s, h, c) && AreHalvedAngles(s', h', c') && b < |s| == |s'|
    requires OnSide(h, c, positive) && OnSide(h', c', positive)
    ensures s[b] == s'[b] && h[b] == h'[b] && c[b] == c'[b] && c[b + 1] == c'[b + 1]
  {
    hide HalvesAngle;
    if b > 0 {
      AnglesAreUnique(s, h, c, s', h', c', positive, b - 1);
    }
    HalfIsUnique(s[b], s'[b], c[b], h[b], c[b + 1], h'[b], c'[b + 1]);
  }

  lemma HalfIsUnique(s: real, s': real, c: real, h: real, d: real, h': real, d': real)
    requires HalvesAngle(s, c, h, d) && HalvesAngle(s', c, h', d')
    requires ((h >= 0.0 && h' >= 0.0) || (h <= 0.0 && h' <= 0.0)) && d >= 0.0 && d' >= 0.0
    ensures h == h' && d == d' && s == s'
  {
    assert h * h == h' * h' && d * d == d' * d';
    SameRoot(d, d');
    SameRoot(h, h');
  }

  /** The angles of a transform of four points, r being the root of one half. */
  lemma AnglesOfFour(sign: real, r: real)
    requires sign * sign == 1.0 && 2.0 * r * r == 1.0
    ensures AreHalvedAngles([0.0, sign], [sign, sign * r], [-1.0, 0.0, r])
  {
    assert sign * r * (sign * r) == sign * sign * (r * r) == r * r;
    assert 2.0 * (sign * r) * r == sign * (2.0 * r * r);
  }

  /** The k-th coefficient of the discrete Fourier transform of x with root w. */
  function Dft(x: seq<complex>, w: complex, k: nat): complex {
    DftSum(C, x, w, k, |x|)
  }

  lemma InputIsStageZero(x: seq<complex>, steps: seq<complex>, m: nat)
    requires |x| == Pow2(m)
    ensures AtStage(x, steps, x, m, 0)
  {
  }

  lemma LastStage(x: seq<complex>, steps: seq<complex>, w: seq<complex>, m: nat, k: nat)
    requires m <= |steps| && |x| == |w| == Pow2(m) && AtStage(x, steps, w, m, m) && k < |x|
    ensures x[k] == Block(C, steps, w, m, 0, k)
  {
    hide Block;
    assert Pow2(m - m) == 1;
    assert Cell(x, Pow2(m), 0, k) == BlockAt(steps, w, m, 0, k);
  }

  /**
   The transform.  sines[b] and halfSines[b] are the values the library returns for the stage's angle and half of
   it.  When they are the sines of halved angles, the array ends up holding the discrete Fourier transform, with the
   point of the unit circle at the last stage's angle as the root, of its input, or of the bit-reversed input when
   bit reversal is off.  Any other exact steps do as well.
   */
  method Transform(data: array<real>, n: nat, logn: nat, sines: seq<real>, halfSines: seq<real>,
                   ghost cosines: seq<real>, rev: bool)
    requires logn <= 31 && n == Pow2(logn) && data.Length == 2 * n && (rev ==> 1 <= logn)
    requires |sines| == |halfSines| == logn
    modifies data
    ensures var x, y, steps := old(Points(data[..])), Points(data[..]), Steps(sines, halfSines);
            && (forall k | 0 <= k < n :: y[k] == Block(C, steps, if rev then Reversed(x, logn) else x, logn, 0, k))
            && (1 <= logn && AreTwiddles(C, steps) ==>
                  forall k | 0 <= k < n :: y[k] == Dft(if rev then x else Reversed(x, logn), steps[logn - 1], k))
    ensures 1 <= logn && AreHalvedAngles(sines, halfSines, cosines) ==>
              var x, y := old(Points(data[..])), Points(data[..]);
              forall k | 0 <= k < n ::
                y[k] == Dft(if rev then x else Reversed(x, logn), Complex(cosines[logn - 1], sines[logn - 1]), k)
  {
    hide Block, Within, AtStage, Dft, C, AreTwiddles, Points, Reversed, HalvesAngle;
    ghost var x := Points(data[..]);
    ghost var steps := Steps(sines, halfSines);
    if rev {
      FftBitReverse(data, n, logn);
    }
    ghost var w := Points(data[..]);
    InputIsStageZero(w, steps, logn);
    var transformLength := 1;
    for bit := 0 to logn
      invariant transformLength == Pow2(bit)
      invariant AtStage(Points(data[..]), steps, w, logn, bit)
    {
      var s, t := sines[bit], halfSines[bit];
      var s2 := 2.0 * t * t;
      StageStarts(Points(data[..]), steps, w, logn, bit);
      RunStage(data, n, logn, bit, transformLength, s, s2, steps, w);
      StageEnds(Points(data[..]), steps, w, logn, bit);
      transformLength := transformLength * 2;
    }
    ReversedTwice(x, logn);
    TransformIsDft(Points(data[..]), steps, if rev then x else Reversed(x, logn), w, logn);
    if AreHalvedAngles(sines, halfSines, cosines) {
      HalvedAnglesAreTwiddles(sines, halfSines, cosines);
    }
  }

  lemma TransformIsDft(y: seq<complex>, steps: seq<complex>, x: seq<complex>, w: seq<complex>, m: nat)
    requires m <= |steps| && |x| == |y| == |w| == Pow2(m) && AtStage(y, steps, w, m, m)
    requires w == Reversed(x, m)
    ensures forall k | 0 <= k < |y| :: y[k] == Block(C, steps, w, m, 0, k)
    ensures 0 < m && AreTwiddles(C, steps) ==> forall k | 0 <= k < |y| :: y[k] == Dft(x, steps[m - 1], k)
  {
    hide Block, AtStage, AreTwiddles, C, DftSum, Reversed;
    forall k | 0 <= k < |y|
      ensures y[k] == Block(C, steps, w, m, 0, k)
    {
      LastStage(y, steps, w, m, k);
    }
    if 0 < m && AreTwiddles(C, steps) {
      forall k | 0 <= k < |y|
        ensures Block(C, steps, w, m, 0, k) == Dft(x, steps[m - 1], k)
      {
        ComplexLaws();
        StagesComputeDft(C, steps, x, m, k);
      }
    }
  }

  // ----- the two signs

  function Conjugate(z: complex): complex {
    Complex(z.re, -z.im)
  }

  function Negated(s: seq<real>): (t: seq<real>)
    ensures |t| == |s|
  {
    seq(|s|, b requires 0 <= b < |s| => -s[b])
  }

  function SquareNorm(z: complex): real {
    z.re * z.re + z.im * z.im
  }

  lemma ConjugateOfProduct(z: complex)
    ensures C.mul(Conjugate(z), Conjugate(z)) == Conjugate(C.mul(z, z))
    ensures C.mul(z, Conjugate(z)) == Complex(SquareNorm(z), 0.0)
    ensures SquareNorm(C.mul(z, z)) == SquareNorm(z) * SquareNorm(z) && SquareNorm(z) >= 0.0
  {
    var a, b, ab := z.re * z.re, z.im * z.im, z.re * z.im;
    SquareOfProduct(z.re, z.im);
    NormOfSquare(a, b, ab);
    assert C.mul(z, z) == Complex(a - b, 2.0 * ab);
  }

  lemma SquareOfProduct(p: real, q: real)
    ensures (p * q) * (p * q) == (p * p) * (q * q)
  {
    calc {
      (p * q) * (p * q);
      p * (q * (p * q));
      p * (p * (q * q));
      (p * p) * (q * q);
    }
  }

  lemma NormOfSquare(a: real, b: real, ab: real)
    requires ab * ab == a * b
    ensures (a - b) * (a - b) + 2.0 * ab * (2.0 * ab) == (a + b) * (a + b)
  {
    assert 2.0 * ab * (2.0 * ab) == 4.0 * (ab * ab);
  }

  lemma OnlyOne(r: real)
    requires r >= 0.0 && r * r == 1.0
    ensures r == 1.0
  {
    assert (r - 1.0) * (r + 1.0) == r * r - 1.0;
    if r != 1.0 {
      ProductIsZero(r - 1.0, r + 1.0);
    }
  }

  lemma ProductIsZero(x: real, y: real)
    requires x * y == 0.0
    ensures x == 0.0 || y == 0.0
  {
  }

  /** Exact steps lie on the unit circle, so their conjugates are their inverses, and exact steps as well. */
  lemma {:induction false} StepsAreUnits(steps: seq<complex>, b: nat)
    requires AreTwiddles(C, steps) && b < |steps|
    ensures SquareNorm(steps[b]) == 1.0
  {
    if b != 0 {
      StepsAreUnits(steps, b - 1);
      ConjugateOfProduct(steps[b]);
      OnlyOne(SquareNorm(steps[b]));
    }
  }

  lemma OppositeStep(sines: seq<real>, halfSines: seq<real>, b: nat)
    requires |sines| == |halfSines| && AreTwiddles(C, Steps(sines, halfSines)) && b < |sines|
    ensures var z, w := Steps(sines, halfSines)[b], Steps(Negated(sines), Negated(halfSines))[b];
            && w == Conjugate(z) && C.mul(z, w) == C.one && C.mul(w, w) == Conjugate(C.mul(z, z))
  {
    hide AreTwiddles;
    StepsAreUnits(Steps(sines, halfSines), b);
    ConjugateOfProduct(Steps(sines, halfSines)[b]);
  }

  lemma OppositeSteps(sines: seq<real>, halfSines: seq<real>)
    requires |sines| == |halfSines| && AreTwiddles(C, Steps(sines, halfSines))
    ensures var back := Steps(Negated(sines), Negated(halfSines));
            AreTwiddles(C, back) && AreInverse(C, Steps(sines, halfSines), back)
  {
    hide Steps, C, Conjugate, Negated;
    var steps, back := Steps(sines, halfSines), Steps(Negated(sines), Negated(halfSines));
    forall b | 0 <= b < |steps|
      ensures back[b] == Conjugate(steps[b]) && C.mul(steps[b], back[b]) == C.one
      ensures C.mul(back[b], back[b]) == Conjugate(C.mul(steps[b], steps[b]))
    {
      OppositeStep(sines, halfSines, b);
    }
    FirstStep(steps, back);
  }

  lemma FirstStep(steps: seq<complex>, back: seq<complex>)
    requires |steps| == |back| && (|steps| > 0 ==> steps[0] == C.neg(C.one) && back[0] == Conjugate(steps[0]))
    ensures |back| > 0 ==> back[0] == C.neg(C.one)
  {
  }

  lemma {:induction false} TimesIsScaling(n: nat, a: complex)
    ensures Times(C, n, a) == Complex(n as real * a.re, n as real * a.im)
  {
    if n != 0 {
      TimesIsScaling(n - 1, a);
      assert n as real == (n - 1) as real + 1.0;
    }
  }

  /** The k-th coefficient of the transform is the k-th value of the spectrum. */
  lemma DftIsSpectrum(x: seq<complex>, steps: seq<complex>, m: nat, k: nat)
    requires 0 < m <= |steps| && |x| == Pow2(m) && k < Pow2(m)
    ensures Dft(x, steps[m - 1], k) == Spectrum(C, steps, m, x)[k]
  {
    hide C, DftSum, Eval;
    ComplexLaws();
    EvalIsDftSum(C, x, steps[m - 1], k, |x|);
    assert x[..|x|] == x;
  }

  /** The transform of a transform with the opposite sign. */
  lemma BackFromSpectrum(x: seq<complex>, y: seq<complex>, z: seq<complex>,
                         steps: seq<complex>, back: seq<complex>, m: nat)
    requires 0 < m <= |steps| && |x| == |y| == |z| == Pow2(m)
    requires AreTwiddles(C, steps) && AreTwiddles(C, back) && AreInverse(C, steps, back)
    requires forall k | 0 <= k < |y| :: y[k] == Dft(x, steps[m - 1], k)
    requires forall k | 0 <= k < |z| :: z[k] == Dft(y, back[m - 1], k)
    ensures forall k | 0 <= k < |z| :: z[k] == Times(C, Pow2(m), x[k])
  {
    assert |back| == |steps|;
    hide C, Dft, Eval, AreTwiddles, AreInverse, Times, Pow2, Spectrum, Node;
    forall k | 0 <= k < |y|
      ensures y[k] == Spectrum(C, steps, m, x)[k]
    {
      DftIsSpectrum(x, steps, m, k);
    }
    assert y == Spectrum(C, steps, m, x);
    forall k | 0 <= k < |z|
      ensures z[k] == Times(C, Pow2(m), x[k])
    {
      DftIsSpectrum(y, back, m, k);
      SpectrumEntry(back, m, y, k);
      ComplexLaws();
      InverseOfSpectrum(C, steps, back, m, x, k);
    }
  }

  lemma SpectrumEntry(steps: seq<complex>, m: nat, p: seq<complex>, k: nat)
    requires m <= |steps| && k < Pow2(m)
    ensures Spectrum(C, steps, m, p)[k] == Eval(C, p, Node(C, steps, m, k))
  {
  }

  /** Every point of z is n times that of x. */
  predicate IsScaled(n: nat, x: seq<complex>, z: seq<complex>) {
    |x| == |z| && forall k | 0 <= k < |x| :: z[k] == Complex(n as real * x[k].re, n as real * x[k].im)
  }

  /** Transforming with one sign and then with the other multiplies every point by n. */
  method ThereAndBack(data: array<real>, n: nat, logn: nat, sines: seq<real>, halfSines: seq<real>,
                      ghost cosines: seq<real>)
    requires 1 <= logn <= 31 && n == Pow2(logn) && data.Length == 2 * n
    requires |sines| == |halfSines| == logn && AreHalvedAngles(sines, halfSines, cosines)
    modifies data
    ensures IsScaled(n, old(Points(data[..])), Points(data[..]))
  {
    hide C, Dft, AreTwiddles, AreInverse, AreHalvedAngles, Points, Steps, Block, Reversed, IsScaled, Pow2;
    ghost var x := Points(data[..]);
    HalvedAnglesAreTwiddles(sines, halfSines, cosines);
    OppositeSteps(sines, halfSines);
    Transform(data, n, logn, sines, halfSines, cosines, true);
    ghost var y := Points(data[..]);
    Transform(data, n, logn, Negated(sines), Negated(halfSines), cosines, true);
    ghost var z := Points(data[..]);
    ScaledByCount(x, y, z, sines, halfSines, logn);
  }

  lemma ScaledByCount(x: seq<complex>, y: seq<complex>, z: seq<complex>, sines: seq<real>, halfSines: seq<real>, m: nat)
    requires 0 < m == |sines| == |halfSines| && |x| == |y| == |z| == Pow2(m)
    requires AreTwiddles(C, Steps(sines, halfSines))
    requires forall k | 0 <= k < |y| :: y[k] == Dft(x, Steps(sines, halfSines)[m - 1], k)
    requires forall k | 0 <= k < |z| :: z[k] == Dft(y, Steps(Negated(sines), Negated(halfSines))[m - 1], k)
    ensures IsScaled(Pow2(m), x, z)
  {
    hide C, Dft, AreTwiddles, AreInverse, Steps, Times, Pow2;
    OppositeSteps(sines, halfSines);
    BackFromSpectrum(x, y, z, Steps(sines, halfSines), Steps(Negated(sines), Negated(halfSines)), m);
    forall k | 0 <= k < |z|
      ensures z[k] == Complex(Pow2(m) as real * x[k].re, Pow2(m) as real * x[k].im)
    {
      TimesIsScaling(Pow2(m), x[k]);
    }
  }
}
