/**
 The K = 7, rate 1/2 convolutional code of section 17.3.5.5 of IEEE Std 802.11a-1999.
 A state holds the six most recent input bits, newest in the lowest bit.
 */
module ConvolutionalCode {
  import opened Bits

  type state = s: int | 0 <= s < 64

  /** Shifts the input in and the oldest of the six bits out. */
  function Next(s: state, b: bit): state {
    if s < 32 then 2 * s + b else 2 * s + b - 64
  }

  /** Addition modulo 2. */
  function Plus(a: bit, b: bit): bit {
    if a == b then 0 else 1
  }

  // Generator 133 (octal): the input and the bits 2, 3, 5 and 6 steps older.
  function OutA(s: state, b: bit): bit {
    Plus(b, Plus(s / 2 % 2, Plus(s / 4 % 2, Plus(s / 16 % 2, s / 32))))
  }

  // Generator 171 (octal): the input and the bits 1, 2, 3 and 6 steps older.
  function OutB(s: state, b: bit): bit {
    Plus(b, Plus(s % 2, Plus(s / 2 % 2, Plus(s / 4 % 2, s / 32))))
  }

  /** The state reached from s by the inputs u. */
  function Run(s: state, u: seq<bit>): state {
    if |u| == 0 then s else Next(Run(s, u[..|u| - 1]), u[|u| - 1])
  }

  /** Both outputs of every step. */
  function Encode(s: state, u: seq<bit>): (y: seq<bit>)
    ensures |y| == 2 * |u|
  {
    if |u| == 0 then []
    else
      var n := |u| - 1;
      var q := Run(s, u[..n]);
      Encode(s, u[..n]) + [OutA(q, u[n]), OutB(q, u[n])]
  }

  /** The value of a bit sequence, most significant bit first. */
  function Val(u: seq<bit>): (v: nat)
    ensures v < Pow2(|u|)
  {
    if |u| == 0 then 0 else 2 * Val(u[..|u| - 1]) + u[|u| - 1]
  }

  /** The polynomials as the decoder stores them, low bit first. */
  const POLY_A := 0x6d
  const POLY_B := 0x4f

  /** The stored polynomials compute the generators on the seven-bit register 2s + b. */
  lemma PolynomialsAreGenerators(s: state, b: bit)
    ensures Parity(And(2 * s + b, POLY_A)) == OutA(s, b)
    ensures Parity(And(2 * s + b, POLY_B)) == OutB(s, b)
  {
    var s1 := s / 2;
    var s2 := s1 / 2;
    var s3 := s2 / 2;
    var s4 := s3 / 2;
    var s5 := s4 / 2;
    ParityA(b, s % 2, s1 % 2, s2 % 2, s3 % 2, s4 % 2, s5, s4, s3, s2, s1, s);
    ParityB(b, s % 2, s1 % 2, s2 % 2, s3 % 2, s4 % 2, s5, s4, s3, s2, s1, s);
    assert s2 == s / 4 && s4 == s / 16 && s5 == s / 32;
  }

  lemma ParityA(b: bit, a0: bit, a1: bit, a2: bit, a3: bit, a4: bit, a5: bit,
                s4: nat, s3: nat, s2: nat, s1: nat, s: nat)
    requires s4 == 2 * a5 + a4 && s3 == 2 * s4 + a3 && s2 == 2 * s3 + a2 && s1 == 2 * s2 + a1 && s == 2 * s1 + a0
    ensures Parity(And(2 * s + b, POLY_A)) == Plus(b, Plus(a1, Plus(a2, Plus(a4, a5))))
  {
    MaskedParity(0, a5, 0, 1, 0);
    MaskedParity(a5, a4, 1, 1, a5);
    MaskedParity(s4, a3, 3, 0, Plus(a4, a5));
    MaskedParity(s3, a2, 6, 1, Plus(a4, a5));
    MaskedParity(s2, a1, 13, 1, Plus(a2, Plus(a4, a5)));
    MaskedParity(s1, a0, 27, 0, Plus(a1, Plus(a2, Plus(a4, a5))));
    MaskedParity(s, b, 54, 1, Plus(a1, Plus(a2, Plus(a4, a5))));
  }

  lemma ParityB(b: bit, a0: bit, a1: bit, a2: bit, a3: bit, a4: bit, a5: bit,
                s4: nat, s3: nat, s2: nat, s1: nat, s: nat)
    requires s4 == 2 * a5 + a4 && s3 == 2 * s4 + a3 && s2 == 2 * s3 + a2 && s1 == 2 * s2 + a1 && s == 2 * s1 + a0
    ensures Parity(And(2 * s + b, POLY_B)) == Plus(b, Plus(a0, Plus(a1, Plus(a2, a5))))
  {
    MaskedParity(0, a5, 0, 1, 0);
    MaskedParity(a5, a4, 1, 0, a5);
    MaskedParity(s4, a3, 2, 0, a5);
    MaskedParity(s3, a2, 4, 1, a5);
    MaskedParity(s2, a1, 9, 1, Plus(a2, a5));
    MaskedParity(s1, a0, 19, 1, Plus(a1, Plus(a2, a5)));
    MaskedParity(s, b, 39, 1, Plus(a0, Plus(a1, Plus(a2, a5))));
  }

  lemma MaskedParity(x: nat, a: bit, y: nat, b: bit, h: bit)
    requires Parity(And(x, y)) == h
    ensures Parity(And(2 * x + a, 2 * y + b)) == if b == 1 then Plus(a, h) else h
  {
    AndCons(x, a, y, b);
    ParityCons(And(x, y), if a == 1 && b == 1 then 1 else 0);
  }

  /** The butterfly identities: flipping the newest or the oldest register bit flips both outputs. */
  lemma OutputsFlip(n: nat, b: bit)
    requires n < 32
    ensures OutA(n, 1 - b) == 1 - OutA(n, b) && OutB(n, 1 - b) == 1 - OutB(n, b)
    ensures OutA(n + 32, b) == 1 - OutA(n, b) && OutB(n + 32, b) == 1 - OutB(n, b)
  {
    assert (n + 32) / 32 == 1 && (n + 32) / 16 % 2 == n / 16 % 2;
    assert (n + 32) / 4 % 2 == n / 4 % 2;
    assert (n + 32) / 2 % 2 == n / 2 % 2;
  }

  lemma {:induction false} RunAppend(s: state, u: seq<bit>, v: seq<bit>)
    ensures Run(s, u + v) == Run(Run(s, u), v)
  {
    if |v| == 0 {
      assert u + v == u;
    } else {
      var m := |v| - 1;
      RunAppend(s, u, v[..m]);
      assert (u + v)[..|u| + m] == u + v[..m];
    }
  }

  /** Six inputs determine the state. */
  lemma RunSix(s: state, u: seq<bit>)
    requires |u| == 6
    ensures Run(s, u) == Val(u)
  {
    hide Run, Val;
    var a, c := u[..3], u[3..];
    assert u == a + c;
    RunAppend(s, a, c);
    RunThree(s, a);
    RunThree(Run(s, a), c);
    ValThree(a, c);
  }

  lemma RunThree(s: state, u: seq<bit>)
    requires |u| == 3
    ensures Run(s, u) as int == 8 * (s as int % 8) + Val(u)
    ensures Val(u) < 8
  {
    RunStep(s, u, 0);
    RunStep(s, u, 1);
    RunStep(s, u, 2);
    assert u[..3] == u;
    NextThree(s, u[0], u[1], u[2]);
  }

  lemma ValSnoc(u: seq<bit>, x: bit)
    ensures Val(u + [x]) == 2 * Val(u) + x
  {
    assert (u + [x])[..|u|] == u;
  }

  lemma ValThree(u: seq<bit>, v: seq<bit>)
    requires |v| == 3
    ensures Val(u + v) == 8 * Val(u) + Val(v)
  {
    hide Val;
    ValSnoc(u, v[0]);
    ValSnoc(u + [v[0]], v[1]);
    ValSnoc(u + [v[0]] + [v[1]], v[2]);
    ValOfThree(v);
    assert u + v == u + [v[0]] + [v[1]] + [v[2]];
  }

  lemma NextThree(s: state, a: bit, b: bit, c: bit)
    ensures Next(Next(Next(s, a), b), c) as int == 8 * (s as int % 8) + 4 * (a as int) + 2 * (b as int) + c
  {
  }

  lemma RunStep(s: state, u: seq<bit>, k: nat)
    requires k < |u|
    ensures Run(s, u[..k + 1]) == Next(Run(s, u[..k]), u[k])
    ensures Val(u[..k + 1]) == 2 * Val(u[..k]) + u[k]
  {
    assert u[..k + 1][..k] == u[..k];
  }

  lemma ValSix(u: seq<bit>)
    requires |u| == 6
    ensures Val(u) == 32 * (u[0] as int) + 16 * (u[1] as int) + 8 * (u[2] as int)
                      + 4 * (u[3] as int) + 2 * (u[4] as int) + u[5]
  {
    hide Val;
    assert u == u[..3] + u[3..];
    ValThree(u[..3], u[3..]);
    ValOfThree(u[..3]);
    ValOfThree(u[3..]);
  }

  lemma ValOfThree(v: seq<bit>)
    requires |v| == 3
    ensures Val(v) == 4 * (v[0] as int) + 2 * (v[1] as int) + v[2]
  {
    hide Val;
    EmptyVal([]);
    ValSnoc([], v[0]);
    ValSnoc([v[0]], v[1]);
    ValSnoc([v[0], v[1]], v[2]);
    assert [] + [v[0]] == [v[0]] && [v[0]] + [v[1]] == [v[0], v[1]] && [v[0], v[1]] + [v[2]] == v;
  }

  lemma EmptyVal(u: seq<bit>)
    requires |u| == 0
    ensures Val(u) == 0
  {
  }

  lemma RunLastSix(s: state, u: seq<bit>)
    requires |u| >= 6
    ensures Run(s, u) == Val(u[|u| - 6..])
  {
    var n := |u| - 6;
    assert u == u[..n] + u[n..];
    RunAppend(s, u[..n], u[n..]);
    RunSix(Run(s, u[..n]), u[n..]);
  }

  /** Shifting right by j leaves the j-th bit from the end lowest. */
  lemma {:induction false} ValBit(u: seq<bit>, j: nat)
    requires j < |u|
    ensures Shr(Val(u), j) % 2 == u[|u| - 1 - j]
  {
    if j != 0 {
      ValBit(u[..|u| - 1], j - 1);
      assert Val(u) / 2 == Val(u[..|u| - 1]);
    }
  }

  lemma {:induction false} EncodePrefix(s: state, u: seq<bit>, k: nat)
    requires k <= |u|
    ensures Encode(s, u[..k]) == Encode(s, u)[..2 * k]
  {
    if k < |u| {
      EncodePrefix(s, u[..|u| - 1], k);
      assert u[..|u| - 1][..k] == u[..k];
    } else {
      assert u[..k] == u;
    }
  }

  lemma EncodeAt(s: state, u: seq<bit>, i: nat)
    requires i < |u|
    ensures Encode(s, u)[2 * i] == OutA(Run(s, u[..i]), u[i])
    ensures Encode(s, u)[2 * i + 1] == OutB(Run(s, u[..i]), u[i])
  {
    EncodePrefix(s, u, i + 1);
    assert u[..i + 1][..i] == u[..i];
    assert Encode(s, u)[..2 * (i + 1)][2 * i] == Encode(s, u)[2 * i];
  }
}
