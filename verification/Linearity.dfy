/**
 The convolutional code is linear: what the encoder sends is a sum of bits of the start state and the inputs, and
 two paths send symbols that differ by what it sends along their difference.
 */
module Linearity {
  import opened Bits
  import opened ConvolutionalCode
  import opened Trellis
  import opened Puncturing

  // ----- the code as a sliding window over the bits

  /** The six bits of the start state, oldest first, followed by the inputs. */
  function Stream(p: Path): (e: seq<bit>)
    ensures |e| == 6 + |p.bits|
  {
    LowBits(p.start, 6) + p.bits
  }

  lemma OutputsOfBits(z: seq<bit>, b: bit)
    requires |z| == 6
    ensures Val(z) < 64
    ensures OutA(Val(z), b) == Plus(b, Plus(z[4], Plus(z[3], Plus(z[1], z[0]))))
    ensures OutB(Val(z), b) == Plus(b, Plus(z[5], Plus(z[4], Plus(z[3], z[0]))))
  {
    hide Val;
    ValSix(z);
    var s := Val(z);
    assert s / 2 == 16 * (z[0] as int) + 8 * (z[1] as int) + 4 * (z[2] as int) + 2 * (z[3] as int) + z[4];
    assert s / 4 == 8 * (z[0] as int) + 4 * (z[1] as int) + 2 * (z[2] as int) + z[3];
    assert s / 16 == 2 * (z[0] as int) + z[1];
    assert s / 32 == z[0];
  }

  /** Each output is a sum of five bits of the stream, at the taps of its generator. */
  lemma EncodeIsSlidingSum(p: Path, i: nat)
    requires i < |p.bits|
    ensures var e, y := Stream(p), Encode(p.start, p.bits);
            && y[2 * i] == Plus(e[i + 6], Plus(e[i + 4], Plus(e[i + 3], Plus(e[i + 1], e[i]))))
            && y[2 * i + 1] == Plus(e[i + 6], Plus(e[i + 5], Plus(e[i + 4], Plus(e[i + 3], e[i]))))
  {
    hide LowBits, Encode, OutA, OutB, Plus, Val;
    var e := Stream(p);
    EncodeAt(p.start, p.bits, i);
    var u := p.bits[..i];
    ApproachLeadsTo(0, p.start);
    RunAppend(0, LowBits(p.start, 6), u);
    RunLastSix(0, LowBits(p.start, 6) + u);
    var z := e[i..i + 6];
    assert (LowBits(p.start, 6) + u)[i..] == z;
    OutputsOfBits(z, p.bits[i]);
    assert z[0] == e[i] && z[1] == e[i + 1] && z[3] == e[i + 3] && z[4] == e[i + 4] && z[5] == e[i + 5];
  }

  // ----- differences of paths

  lemma XorHalves(a: nat, b: nat)
    ensures Xor(a, b) / 2 == Xor(a / 2, b / 2) && Xor(a, b) % 2 == Plus(a % 2, b % 2)
  {
  }

  lemma {:induction false} XorBelow(n: nat, a: nat, b: nat)
    requires a < Pow2(n) && b < Pow2(n)
    ensures Xor(a, b) < Pow2(n)
  {
    if n != 0 {
      XorHalves(a, b);
      XorBelow(n - 1, a / 2, b / 2);
    }
  }

  lemma {:induction false} XorLowBits(a: nat, b: nat, n: nat)
    ensures forall j | 0 <= j < n :: LowBits(Xor(a, b), n)[j] == Plus(LowBits(a, n)[j], LowBits(b, n)[j])
  {
    if n != 0 {
      XorHalves(a, b);
      XorLowBits(a / 2, b / 2, n - 1);
    }
  }

  lemma SixBits()
    ensures Pow2(6) == 64
  {
    assert Pow2(3) == 8;
  }

  /** The state whose bits are those in which s and t differ. */
  function Differ(s: state, t: state): state {
    SixBits();
    XorBelow(6, s, t);
    Xor(s, t)
  }

  /** The inputs at which u and v differ. */
  function Flips(u: seq<bit>, v: seq<bit>): (f: seq<bit>)
    requires |u| == |v|
    ensures |f| == |u|
  {
    seq(|u|, j requires 0 <= j < |u| => Plus(u[j], v[j]))
  }

  /** The difference of two paths is a path of the same trellis. */
  function Diff(p: Path, q: Path): Path
    requires |p.bits| == |q.bits|
  {
    Path(Differ(p.start, q.start), Flips(p.bits, q.bits))
  }

  lemma StreamOfDiff(p: Path, q: Path, j: nat)
    requires |p.bits| == |q.bits| && j < 6 + |p.bits|
    ensures Stream(Diff(p, q))[j] == Plus(Stream(p)[j], Stream(q)[j])
  {
    hide LowBits, Xor;
    XorLowBits(p.start, q.start, 6);
  }

  lemma SumsAdd(a: bit, b: bit, c: bit, d: bit, e: bit, a': bit, b': bit, c': bit, d': bit, e': bit)
    ensures Plus(Plus(a, a'), Plus(Plus(b, b'), Plus(Plus(c, c'), Plus(Plus(d, d'), Plus(e, e')))))
         == Plus(Plus(a, Plus(b, Plus(c, Plus(d, e)))), Plus(a', Plus(b', Plus(c', Plus(d', e')))))
  {
  }

  /** Linearity: along the difference the encoder sends the difference of what it sends along the paths. */
  lemma EncodeOfDiff(p: Path, q: Path, i: nat)
    requires i < |p.bits| == |q.bits|
    ensures var d := Diff(p, q);
            && Encode(d.start, d.bits)[2 * i] == Plus(Encode(p.start, p.bits)[2 * i], Encode(q.start, q.bits)[2 * i])
            && Encode(d.start, d.bits)[2 * i + 1] ==
               Plus(Encode(p.start, p.bits)[2 * i + 1], Encode(q.start, q.bits)[2 * i + 1])
  {
    hide Plus, Encode, Stream, Diff;
    var d := Diff(p, q);
    assert |d.bits| == |p.bits| by { DiffLength(p, q); }
    var e, f := Stream(p), Stream(q);
    EncodeIsSlidingSum(p, i);
    EncodeIsSlidingSum(q, i);
    EncodeIsSlidingSum(d, i);
    StreamOfDiff(p, q, i);
    StreamOfDiff(p, q, i + 1);
    StreamOfDiff(p, q, i + 3);
    StreamOfDiff(p, q, i + 4);
    StreamOfDiff(p, q, i + 5);
    StreamOfDiff(p, q, i + 6);
    SumsAdd(e[i + 6], e[i + 4], e[i + 3], e[i + 1], e[i], f[i + 6], f[i + 4], f[i + 3], f[i + 1], f[i]);
    SumsAdd(e[i + 6], e[i + 5], e[i + 4], e[i + 3], e[i], f[i + 6], f[i + 5], f[i + 4], f[i + 3], f[i]);
  }

  lemma DiffLength(p: Path, q: Path)
    requires |p.bits| == |q.bits|
    ensures |Diff(p, q).bits| == |p.bits|
  {
  }

  // ----- states as six bits

  lemma {:induction false} LowBitsOfVal(u: seq<bit>)
    ensures LowBits(Val(u), |u|) == u
  {
    hide LowBits, Val;
    if |u| == 0 {
      NoLowBits(Val(u));
    } else {
      var n := |u| - 1;
      LowBitsOfVal(u[..n]);
      LastBit(u);
      MoreLowBits(Val(u), n);
    }
  }

  lemma NoLowBits(x: nat)
    ensures LowBits(x, 0) == []
  {
  }

  lemma MoreLowBits(x: nat, n: nat)
    ensures LowBits(x, n + 1) == LowBits(x / 2, n) + [x % 2]
  {
  }

  lemma LastBit(u: seq<bit>)
    requires |u| > 0
    ensures var n := |u| - 1; Val(u) / 2 == Val(u[..n]) && Val(u) % 2 == u[n]
  {
  }

  lemma StateOfBits(t: state)
    ensures Val(LowBits(t, 6)) == t
  {
    SixBits();
  }

  /** The state with these bits. */
  function FromBits(u: seq<bit>): (t: state)
    requires |u| == 6
    ensures LowBits(t, 6) == u
  {
    SixBits();
    LowBitsOfVal(u);
    Val(u)
  }

  lemma ClearedBits(t: state)
    ensures var u := LowBits(t, 6); t < 4 <==> u[0] == u[1] == u[2] == u[3] == 0
  {
    hide LowBits, Val;
    StateOfBits(t);
    ValSix(LowBits(t, 6));
  }

  /** A path ends in the state made of the last six bits of its stream. */
  lemma EndIsLastSix(p: Path)
    ensures LowBits(p.End(), 6) == Stream(p)[|p.bits|..]
  {
    hide Run, LowBits, Val;
    var z := Stream(p);
    ApproachLeadsTo(0, p.start);
    RunAppend(0, LowBits(p.start, 6), p.bits);
    RunLastSix(0, z);
    LowBitsOfVal(z[|p.bits|..]);
  }

  lemma SameLowBits(s: state, t: state)
    requires LowBits(s, 6) == LowBits(t, 6)
    ensures s == t
  {
    hide LowBits, Val;
    StateOfBits(s);
    StateOfBits(t);
  }

  /** The state of the difference is the difference of the states. */
  lemma EndOfDiff(p: Path, q: Path)
    requires |p.bits| == |q.bits|
    ensures Diff(p, q).End() == Differ(p.End(), q.End())
  {
    hide LowBits, Run, Diff, Differ, Stream;
    var n, d, e := |p.bits|, Diff(p, q), Differ(p.End(), q.End());
    DiffLength(p, q);
    EndIsLastSix(p);
    EndIsLastSix(q);
    EndIsLastSix(d);
    DifferBits(p.End(), q.End());
    forall j | 0 <= j < 6
      ensures LowBits(d.End(), 6)[j] == LowBits(e, 6)[j]
    {
      StreamOfDiff(p, q, n + j);
    }
    assert LowBits(d.End(), 6) == LowBits(e, 6);
    SameLowBits(d.End(), e);
  }

  lemma DifferBits(s: state, t: state)
    ensures forall j | 0 <= j < 6 :: LowBits(Differ(s, t), 6)[j] == Plus(LowBits(s, 6)[j], LowBits(t, 6)[j])
  {
    hide LowBits, Xor;
    XorLowBits(s, t, 6);
  }

  lemma DifferTwice(s: state, t: state)
    ensures Differ(s, Differ(s, t)) == t
  {
    hide LowBits, Differ;
    DifferBits(s, t);
    DifferBits(s, Differ(s, t));
    assert LowBits(Differ(s, Differ(s, t)), 6) == LowBits(t, 6);
    SameLowBits(Differ(s, Differ(s, t)), t);
  }

  // ----- kept ones

  /** How many of the two symbols of step k are kept and ones, on input e from x. */
  function Toll(pat: pattern, k: nat, x: state, e: bit): nat {
    (if Kept(pat, 2 * k) then OutA(x, e) else 0) + (if Kept(pat, 2 * k + 1) then OutB(x, e) else 0)
  }

  /** How many kept ones the encoder sends on the inputs u from state x at step k. */
  function Ones(pat: pattern, k: nat, x: state, u: seq<bit>): nat
    decreases |u|
  {
    if |u| == 0 then 0 else Toll(pat, k, x, u[0]) + Ones(pat, k + 1, Next(x, u[0]), u[1..])
  }

  lemma RunFromFirst(x: state, u: seq<bit>)
    requires |u| > 0
    ensures Run(x, u) == Run(Next(x, u[0]), u[1..])
  {
    assert u == [u[0]] + u[1..];
    RunAppend(x, [u[0]], u[1..]);
    assert [u[0]][..0] == [];
  }

  lemma {:induction false} OnesSnoc(pat: pattern, k: nat, x: state, u: seq<bit>)
    requires |u| > 0
    ensures var n := |u| - 1; Ones(pat, k, x, u) == Ones(pat, k, x, u[..n]) + Toll(pat, k + n, Run(x, u[..n]), u[n])
    decreases |u|
  {
    hide Toll, Run;
    var n := |u| - 1;
    if n == 0 {
      assert u[..0] == [] && u[1..] == [];
      RunNothing(x);
    } else {
      OnesSnoc(pat, k + 1, Next(x, u[0]), u[1..]);
      assert u[1..][..n - 1] == u[..n][1..];
      RunFromFirst(x, u[..n]);
    }
  }

  lemma RunNothing(x: state)
    ensures Run(x, []) == x
  {
  }

  /** How many ones the encoder sends along u from x. */
  function OnesSent(x: state, u: seq<bit>): nat {
    Ones(PUNCTURE_1_2, 0, x, u)
  }

  lemma OnesSentSnoc(x: state, u: seq<bit>)
    requires |u| > 0
    ensures var n := |u| - 1;
            OnesSent(x, u) == OnesSent(x, u[..n]) + OutA(Run(x, u[..n]), u[n]) + OutB(Run(x, u[..n]), u[n])
  {
    hide Run, OutA, OutB, Ones;
    OnesSnoc(PUNCTURE_1_2, 0, x, u);
    assert PUNCTURE_1_2[2 * (|u| - 1) % 2] == PUNCTURE_1_2[(2 * (|u| - 1) + 1) % 2] == 1;
  }
}
