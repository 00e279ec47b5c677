/** The puncturing patterns of the 1/2, 2/3 and 3/4 rates, and the depuncturer that undoes them. */
module Puncturing {
  import opened Bits

  type pattern = p: seq<bit> | p == [1, 1] || p == [1, 1, 1, 0] || p == [1, 1, 1, 0, 0, 1] witness [1, 1]

  const PUNCTURE_1_2: pattern := [1, 1]
  const PUNCTURE_2_3: pattern := [1, 1, 1, 0]
  const PUNCTURE_3_4: pattern := [1, 1, 1, 0, 0, 1]

  /** Position c of the coded stream is transmitted. */
  predicate Kept(p: pattern, c: nat) {
    p[c % |p|] == 1
  }

  /** How many positions before c are transmitted. */
  function Rank(p: pattern, c: nat): nat {
    if c == 0 then 0 else Rank(p, c - 1) + if Kept(p, c - 1) then 1 else 0
  }

  /** The transmitted part of the coded stream y. */
  function Punctured(p: pattern, y: seq<int>): (x: seq<int>)
    ensures |x| == Rank(p, |y|)
  {
    if |y| == 0 then []
    else
      var c := |y| - 1;
      Punctured(p, y[..c]) + if Kept(p, c) then [y[c]] else []
  }

  /** y holds the symbols of x at the transmitted positions, in order, and erasures elsewhere. */
  ghost predicate IsDepunctured(p: pattern, x: seq<int>, y: seq<int>) {
    && Rank(p, |y|) <= |x|
    && forall c | 0 <= c < |y| :: if Kept(p, c) then Rank(p, c) < |x| && y[c] == x[Rank(p, c)] else y[c] == 2
  }

  lemma {:induction false} RankGrows(p: pattern, c: nat, d: nat)
    requires c <= d
    ensures Rank(p, c) <= Rank(p, d)
    decreases d
  {
    if c < d {
      RankGrows(p, c, d - 1);
    }
  }

  /** Puncturing undoes depuncturing. */
  lemma {:induction false} PuncturedOfDepunctured(p: pattern, x: seq<int>, y: seq<int>)
    requires IsDepunctured(p, x, y)
    ensures Punctured(p, y) == x[..Rank(p, |y|)]
  {
    hide Kept;
    if |y| != 0 {
      var c := |y| - 1;
      RankGrows(p, c, |y|);
      assert IsDepunctured(p, x, y[..c]);
      PuncturedOfDepunctured(p, x, y[..c]);
      assert Punctured(p, y[..c]) == x[..Rank(p, c)];
      if Kept(p, c) {
        assert x[..Rank(p, c)] + [y[c]] == x[..Rank(p, |y|)];
      }
    }
  }

  /** The symbol kept at position c is the one with that rank. */
  lemma {:induction false} PuncturedAt(p: pattern, y: seq<int>, c: nat)
    requires c < |y| && Kept(p, c)
    ensures Rank(p, c) < |Punctured(p, y)| && Punctured(p, y)[Rank(p, c)] == y[c]
    decreases |y|
  {
    if c < |y| - 1 {
      PuncturedAt(p, y[..|y| - 1], c);
    }
  }

  /** Depuncturing undoes puncturing, up to the erased symbols. */
  lemma DepuncturedOfPunctured(p: pattern, y: seq<int>, z: seq<int>)
    requires |z| <= |y| && IsDepunctured(p, Punctured(p, y), z)
    ensures forall c | 0 <= c < |z| :: z[c] == if Kept(p, c) then y[c] else 2
  {
    forall c | 0 <= c < |z|
      ensures z[c] == if Kept(p, c) then y[c] else 2
    {
      if Kept(p, c) {
        PuncturedAt(p, y, c);
      }
    }
  }

  lemma KeptSix(c: nat)
    ensures Kept(PUNCTURE_3_4, c) <==> c % 6 != 3 && c % 6 != 4
  {
  }

  lemma KeptFour(c: nat)
    ensures Kept(PUNCTURE_2_3, c) <==> c % 4 != 3
  {
  }

  /** No aligned pair of symbols is erased altogether. */
  lemma PairNotErased(p: pattern, i: nat)
    ensures Kept(p, 2 * i) || Kept(p, 2 * i + 1)
  {
    if p == PUNCTURE_3_4 {
      KeptSix(2 * i);
      KeptSix(2 * i + 1);
      EvenInSix(i);
    } else if p == PUNCTURE_2_3 {
      KeptFour(2 * i);
      EvenInFour(i);
    } else {
      assert p[2 * i % 2] == 1;
    }
  }

  lemma EvenInSix(i: nat)
    ensures 2 * i % 6 != 3 && (2 * i % 6 == 4 ==> (2 * i + 1) % 6 == 5)
  {
  }

  lemma EvenInFour(i: nat)
    ensures 2 * i % 4 != 3
  {
  }

  /** The first transmitted position from c on: at most two positions are erased in a row. */
  function NextKept(p: pattern, c: nat): (d: nat)
    ensures c <= d <= c + 2 && Kept(p, d)
    ensures forall e | c <= e < d :: !Kept(p, e)
  {
    if Kept(p, c) then c
    else if Kept(p, c + 1) then c + 1
    else
      assert Kept(p, c + 2) by { ThirdIsKept(p, c); }
      c + 2
  }

  lemma ThirdIsKept(p: pattern, c: nat)
    requires !Kept(p, c) && !Kept(p, c + 1)
    ensures Kept(p, c + 2)
  {
    assert |p| == 2 || |p| == 4 || |p| == 6;
    assert (c + 1) % 4 == if c % 4 == 3 then 0 else c % 4 + 1;
    assert |p| == 6 ==> c % 6 == 3 && (c + 2) % 6 == 5;
  }

  /** How far the transmitted symbols exceed two thirds of a prefix, times three. */
  function Excess(p: pattern, c: nat): int {
    if |p| == 6 then [0, 1, 2, 3, 1, -1][c % 6]
    else if |p| == 4 then c / 4 + c % 4
    else c
  }

  /** At least two thirds of any prefix is transmitted, but for a partial period of the 3/4 pattern. */
  lemma {:induction false} RankDensity(p: pattern, c: nat)
    ensures 3 * Rank(p, c) == 2 * c + Excess(p, c)
  {
    if c != 0 {
      RankDensity(p, c - 1);
      ExcessStep(p, c - 1, (c - 1) % 6, (c - 1) % 4);
    }
  }

  lemma ExcessStep(p: pattern, c: nat, r: nat, q: nat)
    requires r == c % 6 && q == c % 4
    ensures Excess(p, c + 1) == Excess(p, c) - 2 + if Kept(p, c) then 3 else 0
  {
    if p == PUNCTURE_3_4 {
      NextInSix(c);
      assert p[r] == if r == 3 || r == 4 then 0 else 1;
    } else if p == PUNCTURE_2_3 {
      NextInFour(c);
      assert p[q] == if q == 3 then 0 else 1;
    } else {
      assert p[c % 2] == 1;
    }
  }

  lemma NextInSix(c: nat)
    ensures (c + 1) % 6 == if c % 6 == 5 then 0 else c % 6 + 1
  {
  }

  lemma NextInFour(c: nat)
    ensures (c + 1) % 4 == if c % 4 == 3 then 0 else c % 4 + 1
    ensures (c + 1) / 4 == if c % 4 == 3 then c / 4 + 1 else c / 4
  {
  }

  /** The kept position in front of which n positions are kept: where depuncturing stops after n symbols. */
  function PositionOf(p: pattern, n: nat): nat {
    if |p| == 6 then 6 * (n / 4) + [0, 1, 2, 5][n % 4]
    else if |p| == 4 then 4 * (n / 3) + n % 3
    else n
  }

  lemma PositionHasRank(p: pattern, n: nat)
    ensures Rank(p, PositionOf(p, n)) == n && Kept(p, PositionOf(p, n))
  {
    hide Rank;
    var c := PositionOf(p, n);
    RankDensity(p, c);
    assert p == PUNCTURE_1_2 || p == PUNCTURE_2_3 || p == PUNCTURE_3_4;
    if p == PUNCTURE_3_4 {
      assert c % 6 == [0, 1, 2, 5][n % 4];
    } else if p == PUNCTURE_2_3 {
      assert c % 4 == n % 3 && c / 4 == n / 3;
    }
  }

  lemma PositionIsUnique(p: pattern, c: nat, n: nat)
    requires Rank(p, c) == n && Kept(p, c)
    ensures c == PositionOf(p, n)
  {
    hide PositionOf, Kept;
    var d := PositionOf(p, n);
    PositionHasRank(p, n);
    assert Rank(p, c + 1) == n + 1 && Rank(p, d + 1) == n + 1;
    if c < d {
      RankGrows(p, c + 1, d);
    } else if d < c {
      RankGrows(p, d + 1, c);
    }
  }

  /** As long as fewer than n symbols have been placed, the next stop is not behind that after n symbols. */
  lemma NextPosition(p: pattern, c: nat, n: nat)
    requires Rank(p, c) < n && Kept(p, c)
    ensures NextKept(p, c + 1) <= PositionOf(p, n)
  {
    hide PositionOf, Kept;
    var d, e := NextKept(p, c + 1), PositionOf(p, n);
    PositionHasRank(p, n);
    assert Rank(p, c + 1) == Rank(p, c) + 1;
    if e <= c {
      RankGrows(p, e, c);
    } else {
      assert c + 1 <= e;
    }
  }

  /** Appending the symbol, or the erasure, that belongs at the next position. */
  lemma ExtendDepunctured(p: pattern, x: seq<int>, y: seq<int>, v: int)
    requires IsDepunctured(p, x, y)
    requires if Kept(p, |y|) then Rank(p, |y|) < |x| && v == x[Rank(p, |y|)] else v == 2
    ensures IsDepunctured(p, x, y + [v])
    ensures Rank(p, |y| + 1) == Rank(p, |y|) + if Kept(p, |y|) then 1 else 0
  {
    hide Kept;
  }

  /**
   Spreads the nSym * nCbps received symbols over the kept positions and marks the others as
   erased; trailing erased positions are marked too.
   */
  method Depuncture(p: pattern, rateK: nat, input: array<byte>, nSym: nat, nCbps: nat, out: array<byte>)
    returns (count: nat)
    requires |p| == 2 * rateK
    requires out != input && nSym * nCbps <= input.Length
    requires PositionOf(p, nSym * nCbps) <= out.Length
    modifies out
    ensures count == PositionOf(p, nSym * nCbps) <= out.Length
    ensures nSym * nCbps % (rateK + 1) == 0 ==> (rateK + 1) * count == 2 * rateK * (nSym * nCbps)
    ensures IsDepunctured(p, input[..nSym * nCbps], out[..count])
    ensures forall c | count <= c < out.Length :: out[c] == old(out[c])
  {
    hide Kept, PositionOf;
    count := 0;
    ghost var n := nSym * nCbps;
    ghost var x := input[..n];
    assert Kept(p, 0) by { FirstIsKept(p); }
    for i := 0 to nSym
      invariant count <= out.Length && Kept(p, count)
      invariant Rank(p, count) == i * nCbps
      invariant IsDepunctured(p, x, out[..count])
      invariant forall c | count <= c < out.Length :: out[c] == old(out[c])
    {
      RowsFit(i, nSym, nCbps);
      for k := 0 to nCbps
        invariant count <= out.Length && Kept(p, count)
        invariant Rank(p, count) == i * nCbps + k
        invariant IsDepunctured(p, x, out[..count])
        invariant forall c | count <= c < out.Length :: out[c] == old(out[c])
      {
        NextPosition(p, count, n);
        assert input[i * nCbps + k] == x[i * nCbps + k];
        count := InsertReceived(p, rateK, x, input[i * nCbps + k], out, count);
      }
    }
    PositionIsUnique(p, count, n);
    if n % (rateK + 1) == 0 { WholePeriods(p, rateK, n); }
  }

  /** Whole periods of a frame at rate k / (k + 1) become 2k / (k + 1) times as many positions. */
  lemma WholePeriods(p: pattern, rateK: nat, n: nat)
    requires |p| == 2 * rateK && n % (rateK + 1) == 0
    ensures (rateK + 1) * PositionOf(p, n) == 2 * rateK * n
  {
    assert rateK == 1 || rateK == 2 || rateK == 3;
  }

  /** One turn of the inner loop: skip erased positions, insert the symbol v, skip erased positions. */
  method InsertReceived(p: pattern, rateK: nat, ghost x: seq<int>, v: byte, out: array<byte>, start: nat)
    returns (count: nat)
    requires |p| == 2 * rateK
    requires start < NextKept(p, start + 1) <= out.Length && Kept(p, start)
    requires Rank(p, start) < |x| && v == x[Rank(p, start)]
    requires IsDepunctured(p, x, out[..start])
    modifies out
    ensures start < count <= out.Length && Kept(p, count) && Rank(p, count) == Rank(p, start) + 1
    ensures IsDepunctured(p, x, out[..count])
    ensures forall c | count <= c < out.Length :: out[c] == old(out[c])
  {
    hide Kept, IsDepunctured, NextKept;
    count := SkipErased(p, rateK, x, out, start);
    assert count == start;
    ghost var y := out[..count];
    ExtendDepunctured(p, x, y, v);
    out[count] := v;
    count := count + 1;
    assert out[..count] == y + [v];
    count := SkipErased(p, rateK, x, out, count);
  }

  lemma FirstIsKept(p: pattern)
    ensures Kept(p, 0)
  {
  }

  lemma RowsFit(i: nat, rows: nat, cols: nat)
    requires i < rows
    ensures i * cols + cols == (i + 1) * cols <= rows * cols
  {
    var d := rows - (i + 1);
    assert rows * cols == (i + 1) * cols + d * cols;
    assert d * cols >= 0;
  }

  /** The test of the source, whose pattern has a period of 2k at rate k / (k + 1). */
  predicate Erased(p: pattern, rateK: nat, c: nat)
    requires |p| == 2 * rateK
    ensures Erased(p, rateK, c) <==> !Kept(p, c)
  {
    p[c % (2 * rateK)] == 0
  }

  /** Marks the erased positions from count on, up to the next kept one. */
  method SkipErased(p: pattern, rateK: nat, ghost x: seq<int>, out: array<byte>, start: nat) returns (count: nat)
    requires |p| == 2 * rateK
    requires start <= out.Length && NextKept(p, start) <= out.Length
    requires IsDepunctured(p, x, out[..start])
    modifies out
    ensures count == NextKept(p, start) && Rank(p, count) == Rank(p, start)
    ensures IsDepunctured(p, x, out[..count])
    ensures forall c | 0 <= c < out.Length && !(start <= c < count) :: out[c] == old(out[c])
  {
    count := start;
    hide Kept, Erased, IsDepunctured, Rank, NextKept;
    while Erased(p, rateK, count)
      invariant start <= count <= NextKept(p, start) && Rank(p, count) == Rank(p, start)
      invariant IsDepunctured(p, x, out[..count])
      invariant forall c | 0 <= c < out.Length && !(start <= c < count) :: out[c] == old(out[c])
      decreases NextKept(p, start) - count
    {
      ghost var y := out[..count];
      ExtendDepunctured(p, x, y, 2);
      out[count] := 2;
      count := count + 1;
      assert out[..count] == y + [2];
    }
  }
}
