/**
 What the decoder computes, stated on whole symbol streams: the kernel's rows track the dynamic
 program, and the decoded bits are those of survivors of largest weight.
 */
module Decoding {
  import opened Bits
  import opened ConvolutionalCode
  import opened Trellis
  import opened Traceback
  import opened Butterfly

  /** Agreement with the received stream; steps beyond its end gain nothing. */
  function Gains(y: seq<int>): gain {
    (i: nat, s: state, x: bit) => if 2 * i + 1 < |y| then PairGain(y[2 * i], y[2 * i + 1], s, x) else 0
  }

  lemma GainsAreBounded(y: seq<int>)
    ensures Bounded(Gains(y))
  {
    hide OutA, OutB;
  }

  /** Row (m, p) is the dynamic program after k steps, lowered by sub, with the paths since step w. */
  ghost predicate Tracks(m0: bias, g: gain, w: nat, k: nat, sub: int, m: seq<int>, p: seq<int>)
    requires w <= k
  {
    && |m| == |p| == 64
    && (forall t: state :: m[t] == Value(m0, g, k, t) - sub)
    && (forall t: state :: p[t] == PathBits(m0, g, w, k, t))
  }

  /** The kernel's step refines the recurrence: subtracting a constant changes no decision. */
  lemma StepTracks(m0: bias, y: seq<int>, w: nat, k: nat, sub: int, m: seq<int>, p: seq<int>)
    requires w <= k && 2 * k + 1 < |y|
    requires Tracks(m0, Gains(y), w, k, sub, m, p)
    ensures Tracks(m0, Gains(y), w, k + 1, sub,
                   StepMetrics(m, y[2 * k], y[2 * k + 1]), StepPaths(m, p, y[2 * k], y[2 * k + 1]))
  {
    hide PairGain;
    var g := Gains(y);
    var a, b := y[2 * k], y[2 * k + 1];
    forall t: state
      ensures StepMetrics(m, a, b)[t] == Value(m0, g, k + 1, t) - sub
      ensures StepPaths(m, p, a, b)[t] == PathBits(m0, g, w, k + 1, t)
    {
      assert Lower(m, a, b, t) == Through(m0, g, k + 1, t, t / 2) - sub;
      assert Upper(m, a, b, t) == Through(m0, g, k + 1, t, t / 2 + 32) - sub;
    }
  }

  /** The total subtracted never exceeds any value at the last normalisation, and reaches the smallest. */
  ghost predicate IsFloor(m0: bias, g: gain, w: nat, sub: int) {
    && (forall t: state :: sub <= Value(m0, g, w, t))
    && (exists t: state :: sub == Value(m0, g, w, t))
  }

  /** Step w is where a window starts: the beginning of the frame, or a normalisation at step 6 or later. */
  ghost predicate IsWindowStart(m0: bias, g: gain, w: nat, sub: int) {
    if w < 6 then w == 0 && sub == 0 && forall s | 0 <= s < 64 :: 0 <= m0[s] <= 12
    else IsFloor(m0, g, w, sub)
  }

  /**
   Headroom: with the initial metrics in 0..12, or from the first normalisation at step 6 on, the metrics
   k - w <= 8 steps after a normalisation lie in 0..28 and the paths fit in k - w bits.
   */
  lemma RowBounds(m0: bias, y: seq<int>, w: nat, k: nat, sub: int, m: seq<int>, p: seq<int>)
    requires w <= k <= w + 8
    requires Tracks(m0, Gains(y), w, k, sub, m, p)
    requires IsWindowStart(m0, Gains(y), w, sub)
    ensures forall t | 0 <= t < 64 :: 0 <= m[t] <= 12 + 2 * (k - w)
    ensures forall t | 0 <= t < 64 :: 0 <= p[t] < Pow2(k - w)
  {
    var g := Gains(y);
    GainsAreBounded(y);
    forall t | 0 <= t < 64
      ensures 0 <= m[t] <= 12 + 2 * (k - w) && 0 <= p[t] < Pow2(k - w)
    {
      var a := Ancestor(m0, g, w, k, t);
      ValueGrowth(m0, g, w, k, t);
      PathBitsBound(m0, g, w, k, t);
      if w >= 6 {
        var low: state :| sub == Value(m0, g, w, low);
        ValueSpread(m0, g, w, a, low);
      }
    }
  }

  /** Six steps into a window the rows still fit the kernel's next two steps. */
  lemma RowFitsKernel(m0: bias, y: seq<int>, w: nat, k: nat, sub: int, m: seq<int>, p: seq<int>)
    requires w <= k <= w + 6
    requires Tracks(m0, Gains(y), w, k, sub, m, p)
    requires IsWindowStart(m0, Gains(y), w, sub)
    ensures forall t | 0 <= t < 64 :: m[t] <= 251 && p[t] <= 63
  {
    hide Tracks, IsWindowStart;
    RowBounds(m0, y, w, k, sub, m, p);
    Pow2AtMost(k - w, 6);
  }

  lemma Pow2AtMost(j: nat, k: nat)
    requires j <= k <= 6
    ensures Pow2(j) <= 64
  {
    assert Pow2(0) == 1 && Pow2(1) == 2 && Pow2(2) == 4;
    assert Pow2(3) == 8 && Pow2(4) == 16;
    assert Pow2(5) == 32 && Pow2(6) == 64;
  }

  /** One kernel call advances the dynamic program by two steps. */
  lemma KernelTracks(m0: bias, y: seq<int>, w: nat, k: nat, sub: int, m: seq<int>, p: seq<int>)
    requires w <= k && 2 * k + 3 < |y| && |m| == |p| == 64
    requires Tracks(m0, Gains(y), w, k, sub, m, p)
    ensures var m1, p1 := StepMetrics(m, y[2 * k], y[2 * k + 1]), StepPaths(m, p, y[2 * k], y[2 * k + 1]);
            Tracks(m0, Gains(y), w, k + 2, sub,
                   StepMetrics(m1, y[2 * k + 2], y[2 * k + 3]), StepPaths(m1, p1, y[2 * k + 2], y[2 * k + 3]))
  {
    hide Tracks, StepMetrics, StepPaths, Gains;
    StepTracks(m0, y, w, k, sub, m, p);
    StepTracks(m0, y, w, k + 1, sub, StepMetrics(m, y[2 * k], y[2 * k + 1]), StepPaths(m, p, y[2 * k], y[2 * k + 1]));
  }

  /** Storing, then subtracting the smallest metric and clearing the paths, opens the next window. */
  lemma NormaliseTracks(m0: bias, g: gain, w: nat, k: nat, sub: int, m: seq<int>, p: seq<int>, least: int)
    requires w <= k && Tracks(m0, g, w, k, sub, m, p)
    requires forall t | 0 <= t < 64 :: least <= m[t]
    requires exists t :: 0 <= t < 64 && least == m[t]
    ensures Tracks(m0, g, k, k, sub + least, seq(64, t requires 0 <= t < 64 => m[t] - least), seq(64, _ => 0))
    ensures IsFloor(m0, g, k, sub + least)
  {
    var t0 :| 0 <= t0 < 64 && least == m[t0];
    var low: state := t0;
    assert sub + least == Value(m0, g, k, low);
  }

  /** The initialisation clears the first four metrics and leaves the others as they are. */
  function InitialMetrics(m: bias): bias {
    [0, 0, 0, 0] + m[4..]
  }

  /** The metrics are the values after k steps, less the smallest of them. */
  ghost predicate IsNormalised(m0: bias, g: gain, k: nat, m: seq<int>) {
    |m| == 64 && exists sub :: IsFloor(m0, g, k, sub) && forall t: state :: m[t] == Value(m0, g, k, t) - sub
  }

  lemma FrameEnds(m0: bias, g: gain, k: nat, sub: int, m: seq<int>, p: seq<int>)
    requires 6 <= k && Tracks(m0, g, k, k, sub, m, p) && IsWindowStart(m0, g, k, sub)
    ensures IsNormalised(m0, g, k, m)
  {
    hide Value, PathBits, IsFloor;
  }

  lemma FrameStarts(m0: bias, g: gain, m: seq<int>, p: seq<int>)
    requires m == m0 && |p| == 64 && forall t | 0 <= t < 64 :: 0 <= m[t] <= 12 && p[t] == 0
    ensures Tracks(m0, g, 0, 0, 0, m, p) && IsWindowStart(m0, g, 0, 0)
    ensures IsHistory(m0, g, []) && OnSchedule(0, 0, 0, 0)
  {
  }

  /** At a window start the metrics lie in 0..12 and the paths are empty. */
  lemma WindowStartBounds(m0: bias, y: seq<int>, w: nat, sub: int, m: seq<int>, p: seq<int>)
    requires Tracks(m0, Gains(y), w, w, sub, m, p) && IsWindowStart(m0, Gains(y), w, sub)
    ensures |m| == |p| == 64 && forall t | 0 <= t < 64 :: m[t] <= 12 && p[t] == 0
  {
    RowBounds(m0, y, w, w, sub, m, p);
  }

  /** The row the decoder stores at its c-th store is that window of the history. */
  lemma StoredRowIsWindow(m0: bias, g: gain, c: nat, sub: int, m: seq<int>, p: row)
    requires Tracks(m0, g, if c == 0 then 0 else StoreTime(c - 1), StoreTime(c), sub, m, p)
    ensures IsWindow(m0, g, c, p)
  {
    hide PathBits;
  }

  /** Normalisation does not move the best state. */
  lemma BestStateOfRow(m0: bias, g: gain, w: nat, k: nat, sub: int, m: seq<int>, p: seq<int>)
    requires w <= k && Tracks(m0, g, w, k, sub, m, p)
    ensures FirstMax(m) == FirstMax(Values(m0, g, k))
  {
    hide Value, FirstMax;
    var v := Values(m0, g, k);
    var b := FirstMax(m);
    assert forall t | 0 <= t < 64 :: v[t] == m[t] + sub;
    FirstMaxIsUnique(v, b);
  }

  /** The byte walked back to at the c-th store carries output bits 8(c - n) to 8(c - n) + 7. */
  lemma WalkedByteIsOutput(m0: bias, g: gain, h: seq<row>, n: nat, j: nat)
    requires 0 < n < |h| && IsHistory(m0, g, h) && j < 8
    ensures var c := |h| - 1;
            var b := Walk(h, FirstMax(Values(m0, g, StoreTime(c))), n - 1);
            Shr(b, 7 - j) % 2 == DecodedBit(m0, g, n, 8 * (c - n) + j)
  {
    hide Values, Survivor, Walk, IsHistory;
    var c := |h| - 1;
    var s := FirstMax(Values(m0, g, StoreTime(c)));
    var i := 8 * (c - n);
    TracebackYieldsSurvivorBits(m0, g, h, s, n);
    var u := Survivor(m0, g, StoreTime(c), s).bits[i..i + 8];
    ValBit(u, 7 - j);
    assert (i + j) / 8 == c - n;
  }

  /** Index of the first largest entry. */
  function FirstMax(v: seq<int>): (b: nat)
    requires |v| > 0
    ensures b < |v|
    ensures forall i | 0 <= i < |v| :: v[i] <= v[b]
    ensures forall i | 0 <= i < b :: v[i] < v[b]
  {
    if |v| == 1 then 0
    else
      var last := |v| - 1;
      var b := FirstMax(v[..last]);
      assert forall i | 0 <= i < last :: v[i] == v[..last][i];
      if v[last] > v[b] then last else b
  }

  lemma FirstMaxIsUnique(v: seq<int>, b: nat)
    requires b < |v|
    requires forall i | 0 <= i < |v| :: v[i] <= v[b]
    requires forall i | 0 <= i < b :: v[i] < v[b]
    ensures b == FirstMax(v)
  {
  }

  function Values(m0: bias, g: gain, k: nat): (v: seq<int>)
    ensures |v| == 64
  {
    seq(64, t requires 0 <= t < 64 => Value(m0, g, k, t))
  }

  /** The path the decoder commits to at its c-th store. */
  function Chosen(m0: bias, g: gain, c: nat): Path {
    Survivor(m0, g, StoreTime(c), FirstMax(Values(m0, g, StoreTime(c))))
  }

  /** It is a path of largest weight. */
  lemma ChosenIsOptimal(m0: bias, g: gain, c: nat)
    ensures IsOptimal(m0, g, StoreTime(c), Chosen(m0, g, c))
  {
    var k := StoreTime(c);
    var v := Values(m0, g, k);
    forall t: state
      ensures Value(m0, g, k, t) <= Value(m0, g, k, FirstMax(v))
    {
      assert v[t] <= v[FirstMax(v)];
    }
    BestSurvivorIsOptimal(m0, g, k, FirstMax(v));
  }

  /** Among the paths of largest weight it comes first. */
  lemma ChosenComesFirst(m0: bias, g: gain, c: nat, q: Path)
    requires |q.bits| == StoreTime(c) && q != Chosen(m0, g, c)
    requires Weight(m0, g, q) == Weight(m0, g, Chosen(m0, g, c))
    ensures |Chosen(m0, g, c).bits| == |q.bits| && Precedes(Chosen(m0, g, c), q)
  {
    hide Value, Run, FirstMax, TakesUpperHalf;
    var k := StoreTime(c);
    var v := Values(m0, g, k);
    var t: state := FirstMax(v);
    SurvivorAttainsValue(m0, g, k, t);
    ValueIsUpperBound(m0, g, q);
    assert v[q.End()] <= v[t];
    if q.End() == t {
      SurvivorTakesUpperHalf(m0, g, k, t, q);
    }
  }

  /** Output bit i with traceback depth n: bit i of the path chosen n stores after its window. */
  function DecodedBit(m0: bias, g: gain, n: nat, i: nat): bit
    requires 0 < n
  {
    assert i < StoreTime(i / 8 + n);
    Chosen(m0, g, i / 8 + n).bits[i]
  }

  /** Of all paths of n steps this one has the largest weight, and precedes the others that have it. */
  ghost predicate IsBestPath(m0: bias, y: seq<int>, n: nat, p: Path) {
    && |p.bits| == n
    && (forall q: Path | |q.bits| == n :: Weight(m0, Gains(y), q) <= Weight(m0, Gains(y), p))
    && forall q: Path | |q.bits| == n && q != p && Weight(m0, Gains(y), q) == Weight(m0, Gains(y), p) :: Precedes(p, q)
  }

  /** What the best path of n steps says of bit i. */
  ghost predicate IsBestBit(m0: bias, y: seq<int>, n: nat, i: nat, b: int) {
    exists p :: IsBestPath(m0, y, n, p) && i < n && b == p.bits[i]
  }

  /** Every bit is that of the best path up to the store d windows after its own; the first window has six steps. */
  ghost predicate AreBestBits(m0: bias, y: seq<int>, d: nat, out: seq<int>) {
    forall i | 0 <= i < |out| :: IsBestBit(m0, y, 8 * (i / 8 + d) + 6, i, out[i])
  }

  lemma DecodedIsBest(m0: bias, y: seq<int>, d: nat, out: seq<int>)
    requires 0 < d && forall i | 0 <= i < |out| :: out[i] == DecodedBit(m0, Gains(y), d, i)
    ensures AreBestBits(m0, y, d, out)
  {
    hide DecodedBit, IsBestBit, Gains;
    forall i | 0 <= i < |out|
      ensures IsBestBit(m0, y, 8 * (i / 8 + d) + 6, i, out[i])
    {
      DecodedBitIsBest(m0, y, d, i);
    }
  }

  /** There is only one best path. */
  lemma BestPathIsUnique(m0: bias, y: seq<int>, n: nat, p: Path, q: Path)
    requires IsBestPath(m0, y, n, p) && IsBestPath(m0, y, n, q)
    ensures p == q
  {
    if p != q { PrecedesOneWay(p, q); }
  }

  /** Bit i is decoded from the best path at the store n windows after its own. */
  lemma DecodedBitIsBest(m0: bias, y: seq<int>, n: nat, i: nat)
    requires 0 < n
    ensures IsBestBit(m0, y, 8 * (i / 8 + n) + 6, i, DecodedBit(m0, Gains(y), n, i))
  {
    hide Weight, Gains, Precedes, FirstMax;
    var c := i / 8 + n;
    var p := Chosen(m0, Gains(y), c);
    ChosenIsOptimal(m0, Gains(y), c);
    forall q: Path | |q.bits| == StoreTime(c) && q != p && Weight(m0, Gains(y), q) == Weight(m0, Gains(y), p)
      ensures Precedes(p, q)
    {
      ChosenComesFirst(m0, Gains(y), c, q);
    }
    assert IsBestPath(m0, y, StoreTime(c), p);
  }

  // ----- the schedule of the decoding loop

  /** Symbols the loop reads to deliver n bits with traceback depth d. */
  function SymbolsRead(n: nat, d: nat): nat {
    if n == 0 then 0 else 2 * StoreTime((n - 1) / 8 + d)
  }

  /**
   Where the loop is: inCount symbols consumed, oc stores done, k trellis steps made (four symbols,
   two steps, per kernel call) and the current window started at step w.
   */
  ghost predicate OnSchedule(inCount: nat, oc: nat, k: nat, w: nat) {
    && k % 2 == 0 && inCount <= 2 * k < inCount + 4
    && inCount <= 16 * oc + 8 && (oc > 0 ==> 16 * oc - 7 <= inCount)
    && w == (if oc == 0 then 0 else StoreTime(oc - 1)) && w <= k
  }

  lemma IdleTurn(inCount: nat, oc: nat, k: nat, w: nat)
    requires OnSchedule(inCount, oc, k, w) && inCount % 4 != 0
    ensures OnSchedule(inCount + 1, oc, k, w) && inCount <= 16 * oc + 8
  {
    var j := k / 2;
    assert k == 2 * j && inCount + 1 <= 4 * j;
  }

  lemma KernelTurnBounds(inCount: nat, oc: nat, k: nat, w: nat)
    requires OnSchedule(inCount, oc, k, w)
    ensures inCount <= 16 * oc + 8
  {
  }

  /** While bits are missing, the reads stay within what the frame needs. */
  lemma ReadsFit(oc: nat, d: nat, n: nat)
    requires n > 0 && 8 * (oc - d) < n
    ensures 2 * StoreTime(oc) <= SymbolsRead(n, d) && oc <= d + n
  {
    assert oc - d <= (n - 1) / 8;
  }

  /** The store that delivers the last missing bits. */
  lemma LastStore(inCount: nat, oc: nat, k: nat, w: nat, d: nat, n: nat)
    requires OnSchedule(inCount, oc, k, w) && 0 < n <= 8 * (oc - d) < n + 8
    ensures w == StoreTime((n - 1) / 8 + d)
  {
    assert (n - 1) / 8 == oc - 1 - d;
  }

  /** A kernel call happens at most six steps into a window, and a store exactly at its end. */
  lemma KernelTurn(inCount: nat, oc: nat, k: nat, w: nat)
    requires OnSchedule(inCount, oc, k, w) && inCount % 4 == 0
    ensures w == if oc == 0 then 0 else StoreTime(oc - 1)
    ensures inCount <= 16 * oc + 8 && k == inCount / 2 && w <= k <= w + 6 && 2 * k + 4 <= 2 * StoreTime(oc)
    ensures if inCount % 16 == 8 then k + 2 == StoreTime(oc) && OnSchedule(inCount + 1, oc + 1, k + 2, k + 2)
            else OnSchedule(inCount + 1, oc, k + 2, w)
  {
    var q := inCount / 4;
    assert inCount == 4 * q && k == 2 * q;
    if inCount % 16 == 8 {
      assert inCount == 16 * (inCount / 16) + 8;
      assert inCount / 16 == oc;
    }
  }
}
