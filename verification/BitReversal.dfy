/** Bit reversal on 32-bit words, and the in-place permutation of an interleaved complex array. */
module BitReversal {
  import opened Bits

  /** The low n bits of v in reverse order. */
  function Reverse(n: nat, v: nat): (r: nat)
    ensures r < Pow2(n)
  {
    if n == 0 then 0 else (if v % 2 == 1 then Pow2(n - 1) else 0) + Reverse(n - 1, v / 2)
  }

  lemma {:induction false} ShlAdd(x: nat, y: nat, s: nat)
    ensures Shl(x + y, s) == Shl(x, s) + Shl(y, s)
  {
    if s != 0 { ShlAdd(x, y, s - 1); }
  }

  lemma {:induction false} ShlPow2(n: nat, s: nat)
    ensures Shl(Pow2(n), s) == Pow2(n + s)
  {
    if s != 0 { ShlPow2(n, s - 1); }
  }

  lemma {:induction false} ShlShl(x: nat, s: nat, t: nat)
    ensures Shl(Shl(x, s), t) == Shl(x, s + t)
  {
    if t != 0 { ShlShl(x, s, t - 1); }
  }

  lemma {:induction false} ShrShl(x: nat, s: nat)
    ensures Shr(Shl(x, s), s) == x
  {
    if s != 0 {
      assert Shl(x, s) / 2 == Shl(x, s - 1);
      ShrShl(x, s - 1);
    }
  }

  lemma {:induction false} ShrBelow(x: nat, n: nat)
    requires x < Pow2(n)
    ensures Shr(x, n) == 0
  {
    if n != 0 { ShrBelow(x / 2, n - 1); }
  }

  lemma {:induction false} ShrSnoc(x: nat, n: nat)
    ensures Shr(x, n + 1) == Shr(x, n) / 2
  {
    if n != 0 { ShrSnoc(x / 2, n - 1); }
  }

  /** Reversing one more bit appends the next bit of v on the right. */
  lemma {:induction false} ReverseSnoc(n: nat, v: nat)
    ensures Reverse(n + 1, v) == 2 * Reverse(n, v) + Shr(v, n) % 2
  {
    if n != 0 {
      ReverseSnoc(n - 1, v / 2);
    }
  }

  lemma {:induction false} ReverseZero(n: nat)
    ensures Reverse(n, 0) == 0
  {
    if n != 0 { ReverseZero(n - 1); }
  }

  /** A short number, reversed in a wide word, is its short reversal shifted left. */
  lemma {:induction false} ReverseWide(c: nat, n: nat, v: nat)
    requires c <= n && v < Pow2(c)
    ensures Reverse(n, v) == Shl(Reverse(c, v), n - c)
    decreases c
  {
    if c == 0 {
      ReverseZero(n);
      ShlZero(n);
    } else {
      ReverseWide(c - 1, n - 1, v / 2);
      var top := if v % 2 == 1 then Pow2(c - 1) else 0;
      ShlAdd(top, Reverse(c - 1, v / 2), n - c);
      ShlPow2(c - 1, n - c);
      ShlZero(n - c);
    }
  }

  lemma {:induction false} ShlZero(s: nat)
    ensures Shl(0, s) == 0
  {
    if s != 0 { ShlZero(s - 1); }
  }

  /** Bits above the reversed ones do not matter. */
  lemma {:induction false} ReverseIgnoresHigh(n: nat, v: nat, k: nat)
    ensures Reverse(n, v + Shl(k, n)) == Reverse(n, v)
  {
    if n != 0 {
      var h := Shl(k, n - 1);
      assert (v + 2 * h) / 2 == v / 2 + h && (v + 2 * h) % 2 == v % 2;
      ReverseIgnoresHigh(n - 1, v / 2, k);
    }
  }

  lemma {:induction false} ShrOfSum(n: nat, v: nat, k: nat)
    requires v < Pow2(n)
    ensures Shr(v + Shl(k, n), n) == k
  {
    if n != 0 {
      var h := Shl(k, n - 1);
      assert (v + 2 * h) / 2 == v / 2 + h;
      ShrOfSum(n - 1, v / 2, k);
    }
  }

  lemma ReverseCons(n: nat, h: nat, k: bit)
    ensures Reverse(n + 1, 2 * h + k) == Reverse(n, h) + Shl(k, n)
  {
    ShlPow2(0, n);
    ShlZero(n);
    assert (2 * h + k) / 2 == h && (2 * h + k) % 2 == k;
  }

  lemma ReverseOfSum(n: nat, r: nat, k: bit)
    requires r < Pow2(n)
    ensures Reverse(n + 1, r + Shl(k, n)) == 2 * Reverse(n, r) + k
  {
    hide Reverse;
    ReverseSnoc(n, r + Shl(k, n));
    ReverseIgnoresHigh(n, r, k);
    ShrOfSum(n, r, k);
  }

  /** Reversal is an involution on the n-bit numbers. */
  lemma {:induction false} ReverseInvolution(n: nat, v: nat)
    requires v < Pow2(n)
    ensures Reverse(n, Reverse(n, v)) == v
  {
    if n == 0 {
      assert Reverse(0, 0) == 0;
    } else {
      hide Reverse, Shl;
      var h, k := v / 2, v % 2;
      var r := Reverse(n - 1, h);
      ReverseInvolution(n - 1, h);
      ReverseCons(n - 1, h, k);
      ReverseOfSum(n - 1, r, k);
    }
  }

  lemma {:induction false} ShlMod(x: nat, s: nat)
    ensures Shl(x % WORD, s) % WORD == Shl(x, s) % WORD
  {
    if s == 0 {
      ModMod(x);
    } else {
      ShlMod(x, s - 1);
      DoubleMod(Shl(x % WORD, s - 1));
      DoubleMod(Shl(x, s - 1));
    }
  }

  lemma ModMod(x: nat)
    ensures x % WORD % WORD == x % WORD
  {
  }

  lemma DoubleMod(x: nat)
    ensures 2 * x % WORD == 2 * (x % WORD) % WORD
  {
    var q, r := x / WORD, x % WORD;
    if 2 * r < WORD {
      ModPeriod(2 * q, 2 * r);
      ModPeriod(0, 2 * r);
      assert 2 * x == WORD * (2 * q) + 2 * r;
    } else {
      ModPeriod(2 * q + 1, 2 * r - WORD);
      ModPeriod(1, 2 * r - WORD);
      assert 2 * x == WORD * (2 * q + 1) + (2 * r - WORD);
    }
  }

  lemma {:induction false} BelowOfShr(x: nat, n: nat)
    requires Shr(x, n) == 0
    ensures x < Pow2(n)
  {
    if n != 0 { BelowOfShr(x / 2, n - 1); }
  }

  lemma OrLowBit(y: nat, b: bit)
    ensures Or(2 * y, b) == 2 * y + b
  {
    if y != 0 && b != 0 {
      assert (2 * y) / 2 == y && (2 * y) % 2 == 0;
      assert Or(y, 0) == y;
    }
  }

  /** One turn of the reversing loop, on the word and on the unbounded number it stands for. */
  lemma AppendBit(r: nat, wide: nat, b: bit)
    requires r == wide % WORD
    ensures Or(r * 2 % WORD, b) == (2 * wide + b) % WORD
  {
    hide Or;
    DoubleMod(wide);
    var q, y := wide / 0x8000_0000, wide % 0x8000_0000;
    assert 2 * wide == WORD * q + 2 * y;
    ModPeriod(q, 2 * y);
    ModPeriod(q, 2 * y + b);
    OrLowBit(y, b);
  }

  /** The last shift drops the bits above the word and leaves the reversal of all 32 bits. */
  lemma FinalShift(v: nat, c: nat, r: nat)
    requires v < WORD && c <= 31 && Shr(v / 2, c) == 0
    requires r == (Shl(v, c) + Reverse(c, v / 2)) % WORD
    ensures Shl(r, 31 - c) % WORD == Reverse(32, v)
  {
    hide Shl, Reverse;
    var s := 31 - c;
    var h := v / 2;
    ShlMod(Shl(v, c) + Reverse(c, h), s);
    ShlAdd(Shl(v, c), Reverse(c, h), s);
    ShlShl(v, c, s);
    BelowOfShr(h, c);
    ReverseWide(c, 31, h);
    assert Shl(r, s) % WORD == (Shl(v, 31) + Reverse(31, h)) % WORD;
    DropHighBits(v);
  }

  lemma DropHighBits(v: nat)
    ensures (Shl(v, 31) + Reverse(31, v / 2)) % WORD == Reverse(32, v)
  {
    hide Shl;
    var h := v / 2;
    ShlTimes(v);
    WordSize();
    assert Reverse(32, v) == 0x8000_0000 * (v % 2) + Reverse(31, h);
    assert 0x8000_0000 * v == WORD * h + 0x8000_0000 * (v % 2);
    ModPeriod(h, Reverse(32, v));
  }

  lemma ModPeriod(h: nat, x: nat)
    requires x < WORD
    ensures (WORD * h + x) % WORD == x
  {
  }

  lemma ShlTimes(v: nat)
    ensures Shl(v, 31) == 0x8000_0000 * v
  {
    ShlByte(v);
    ShlByte(Shl(v, 8));
    ShlByte(Shl(Shl(v, 8), 8));
    ShlShl(v, 8, 8);
    ShlShl(v, 16, 8);
    ShlShl(v, 24, 7);
    var w := 0x100_0000 * v;
    assert Shl(w, 3) == 8 * w by { assert Shl(w, 1) == 2 * w; }
    assert Shl(w, 5) == 32 * w by { assert Shl(w, 4) == 16 * w; }
    assert Shl(w, 7) == 128 * w by { assert Shl(w, 6) == 64 * w; }
  }

  /** The 32-bit reversal of v. */
  method FftRev(v: nat) returns (r: nat)
    requires v < WORD
    ensures r == Reverse(32, v)
  {
    r := v;
    var s, u := 31, v / 2;
    ghost var c := 0;
    while u != 0
      invariant c <= 31 && s == 31 - c && u == Shr(v / 2, c)
      invariant r == (Shl(v, c) + Reverse(c, v / 2)) % WORD
    {
      LongEnough(v, c);
      ShrSnoc(v / 2, c);
      ReverseSnoc(c, v / 2);
      AppendBit(r, Shl(v, c) + Reverse(c, v / 2), u % 2);
      r := r * 2 % WORD;
      r := Or(r, u % 2);
      s := s - 1;
      u := u / 2;
      c := c + 1;
    }
    FinalShift(v, c, r);
    r := Shl(r, s) % WORD;
  }

  /** While bits remain, the shift count has not run out. */
  lemma LongEnough(v: nat, c: nat)
    requires v < WORD && Shr(v / 2, c) != 0
    ensures c < 31
  {
    if c >= 31 {
      WordSize();
      ShrBelow(v / 2, 31);
      ShrMore(v / 2, 31, c);
    }
  }

  lemma {:induction false} ShrMore(x: nat, n: nat, c: nat)
    requires n <= c && Shr(x, n) == 0
    ensures Shr(x, c) == 0
  {
    if n < c {
      ShrMore(x, n, c - 1);
      ShrSnoc(x, c - 1);
    }
  }

  /** Shifted down, it is the reversal within the low bits. */
  lemma ReverseShiftedDown(bits: nat, i: nat)
    requires bits <= 32 && i < Pow2(bits)
    ensures Shr(Reverse(32, i), 32 - bits) == Reverse(bits, i)
  {
    ReverseWide(bits, 32, i);
    ShrShl(Reverse(bits, i), 32 - bits);
  }

  datatype complex = Complex(re: real, im: real)

  /** The complex numbers stored interleaved in w. */
  function Points(w: seq<real>): (x: seq<complex>)
    requires |w| % 2 == 0
    ensures |x| == |w| / 2
  {
    seq(|w| / 2, k requires 0 <= k < |w| / 2 => Complex(w[2 * k], w[2 * k + 1]))
  }

  /** Swaps two complex entries. */
  method SwapPoints(w: array<real>, i: nat, r: nat)
    requires w.Length % 2 == 0 && i < r < w.Length / 2
    modifies w
    ensures var x := old(Points(w[..])); Points(w[..]) == x[i := x[r]][r := x[i]]
  {
    var tReal, tImag := w[2 * i], w[2 * i + 1];
    w[2 * i] := w[2 * r];
    w[2 * i + 1] := w[2 * r + 1];
    w[2 * r] := tReal;
    w[2 * r + 1] := tImag;
  }

  /** The permutation after the first i turns: a pair is swapped once its smaller index has been passed. */
  ghost predicate PartlyReversed(x: seq<complex>, y: seq<complex>, bits: nat, i: nat)
    requires |x| == Pow2(bits)
  {
    && |y| == |x|
    && forall k | 0 <= k < |x| :: y[k] == if k < i || Reverse(bits, k) < i then x[Reverse(bits, k)] else x[k]
  }

  lemma NoneReversed(x: seq<complex>, bits: nat)
    requires |x| == Pow2(bits)
    ensures PartlyReversed(x, x, bits, 0)
  {
    hide Reverse, Pow2;
  }

  lemma AllReversed(x: seq<complex>, y: seq<complex>, bits: nat)
    requires |x| == Pow2(bits) && PartlyReversed(x, y, bits, |x|)
    ensures y == Reversed(x, bits)
  {
    hide Reverse, Pow2;
  }

  lemma SwapAdvances(x: seq<complex>, y: seq<complex>, bits: nat, i: nat)
    requires |x| == Pow2(bits) && i < |x| && PartlyReversed(x, y, bits, i)
    ensures var r := Reverse(bits, i);
            PartlyReversed(x, if i < r then y[i := y[r]][r := y[i]] else y, bits, i + 1)
  {
    hide Reverse, Pow2;
    var r := Reverse(bits, i);
    ReverseInvolution(bits, i);
    forall k | 0 <= k < |x| && Reverse(bits, k) == i
      ensures k == r
    {
      ReverseInvolution(bits, k);
    }
  }

  /**
   Swaps every complex entry with the one at the reversed index, once per pair: the result is the
   bit-reversed permutation of the array.
   */
  method FftBitReverse(w: array<real>, n: nat, bits: nat)
    requires 1 <= bits <= 31 && n == Pow2(bits) && w.Length == 2 * n
    modifies w
    ensures Points(w[..]) == Reversed(old(Points(w[..])), bits)
  {
    hide Reverse, Points, PartlyReversed, Reversed;
    var shift := 31 - bits + 1;
    WordSize();
    Pow2Grows(bits, 32);
    ghost var x := Points(w[..]);
    NoneReversed(x, bits);
    for i := 0 to n
      invariant PartlyReversed(x, Points(w[..]), bits, i)
    {
      var r := FftRev(i);
      ReverseShiftedDown(bits, i);
      r := Shr(r, shift);
      SwapAdvances(x, Points(w[..]), bits, i);
      if i < r {
        SwapPoints(w, i, r);
      }
    }
    AllReversed(x, Points(w[..]), bits);
  }

  /** Permuting twice by bit reversal gives back the original sequence. */
  lemma ReversedTwice<T>(x: seq<T>, bits: nat)
    requires |x| == Pow2(bits)
    ensures Reversed(Reversed(x, bits), bits) == x
  {
    forall k | 0 <= k < |x|
      ensures Reversed(Reversed(x, bits), bits)[k] == x[k]
    {
      ReverseInvolution(bits, k);
    }
  }

  /** The bit-reversed permutation of a sequence. */
  function Reversed<T>(x: seq<T>, bits: nat): (y: seq<T>)
    requires |x| == Pow2(bits)
    ensures |y| == |x|
  {
    seq(|x|, k requires 0 <= k < |x| => x[Reverse(bits, k)])
  }
}
