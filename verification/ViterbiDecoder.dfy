/** The decoder object: its global buffers, the circular traceback buffer and the decoding loop. */
module ViterbiDecoder {
  import opened Bits
  import opened ConvolutionalCode
  import opened Trellis
  import opened Traceback
  import opened Butterfly
  import opened Decoding
  import opened MetricSpread
  import opened ParityTable
  import opened Puncturing

  const TRACEBACK_MAX := 24
  const MAX_ENCODED_BITS := 24780

  /** The slot d places behind pos in a circular buffer of n slots. */
  function Slot(pos: nat, d: nat, n: nat): (r: nat)
    requires pos < n && d < n
    ensures r < n
  {
    if d <= pos then pos - d else pos - d + n
  }

  /** Advancing the position leaves every older row in place, except the one overwritten. */
  lemma SlotAdvance(pos: nat, d: nat, n: nat)
    requires pos < n && d + 1 < n
    ensures Slot((pos + 1) % n, d + 1, n) == Slot(pos, d, n) != (pos + 1) % n
  {
    assert (pos + 1) % n == if pos + 1 == n then 0 else pos + 1;
  }

  lemma SlotRetreat(pos: nat, d: nat, n: nat)
    requires pos < n && d + 1 < n
    ensures (Slot(pos, d, n) - 1 + n) % n == Slot(pos, d + 1, n)
  {
    var r := Slot(pos, d, n);
    assert (r - 1 + n) % n == if r == 0 then n - 1 else r - 1 by {
      if r != 0 { assert (r - 1 + n) % n == r - 1; }
    }
  }

  lemma SlotHere(pos: nat, n: nat)
    requires pos < n
    ensures Slot(pos, 0, n) == pos
  {
  }

  class TracebackBuffer {
    var storePos: nat
    const mmresult: array<byte>
    const ppresult: array2<byte>

    constructor ()
      ensures storePos == 0 && fresh(mmresult) && fresh(ppresult) && Shape()
    {
      storePos := 0;
      mmresult := new byte[64](_ => 0);
      ppresult := new byte[TRACEBACK_MAX, 64]((_, _) => 0);
    }

    ghost predicate Shape() {
      mmresult.Length == 64 && ppresult.Length0 == TRACEBACK_MAX && ppresult.Length1 == 64
    }

    /** The last stored rows of the history h sit in the slots behind the store position. */
    ghost predicate Holds(h: seq<row>, n: nat)
      requires Shape() && 0 < n <= TRACEBACK_MAX
      reads this, ppresult
    {
      && (|h| > 0 ==> storePos < n)
      && forall d, t | 0 <= d < n && d < |h| && 0 <= t < 64 :: ppresult[Slot(storePos, d, n), t] == h[|h| - 1 - d][t]
    }

    ghost predicate IsClear()
      requires Shape()
      reads mmresult, ppresult
    {
      && (forall i | 0 <= i < 64 :: mmresult[i] == 0)
      && forall j, i | 0 <= j < TRACEBACK_MAX && 0 <= i < 64 :: ppresult[j, i] == 0
    }

    /** Empties the rows, as the initialisation of every frame does; the store position stays. */
    method Clear()
      requires Shape()
      modifies mmresult, ppresult
      ensures IsClear()
    {
      for i := 0 to 64
        invariant forall h | 0 <= h < i :: mmresult[h] == 0
        invariant forall j, h | 0 <= j < TRACEBACK_MAX && 0 <= h < i :: ppresult[j, h] == 0
      {
        mmresult[i] := 0;
        for j := 0 to TRACEBACK_MAX
          modifies ppresult
          invariant forall g, h | 0 <= g < TRACEBACK_MAX && 0 <= h < i :: ppresult[g, h] == 0
          invariant forall g | 0 <= g < j :: ppresult[g, i] == 0
        {
          ppresult[j, i] := 0;
        }
      }
    }

    /** Copies a row of metrics and a row of paths into the buffers. */
    method CopyRow(mm0: array<byte>, pp0: array<byte>)
      requires Shape() && storePos < TRACEBACK_MAX
      requires mm0.Length == pp0.Length == 64 && mmresult !in {mm0, pp0}
      modifies mmresult, ppresult
      ensures mmresult[..] == mm0[..]
      ensures forall t | 0 <= t < 64 :: ppresult[storePos, t] == pp0[t]
      ensures forall s, t | 0 <= s < TRACEBACK_MAX && s != storePos && 0 <= t < 64 ::
                ppresult[s, t] == old(ppresult[s, t])
    {
      for i := 0 to 64
        invariant forall j | 0 <= j < i :: mmresult[j] == mm0[j]
        invariant forall t | 0 <= t < i :: ppresult[storePos, t] == pp0[t]
        invariant forall s, t | 0 <= s < TRACEBACK_MAX && s != storePos && 0 <= t < 64 ::
                    ppresult[s, t] == old(ppresult[s, t])
      {
        mmresult[i] := mm0[i];
        ppresult[storePos, i] := pp0[i];
      }
    }

    /** Stores the metrics and paths at the next position of the circular buffer. */
    method Store(mm0: array<byte>, pp0: array<byte>, n: nat, ghost h: seq<row>)
      requires Shape() && 0 < n <= TRACEBACK_MAX && Holds(h, n)
      requires mm0.Length == pp0.Length == 64 && mmresult !in {mm0, pp0}
      modifies this, mmresult, ppresult
      ensures storePos < n && Holds(h + [pp0[..]], n)
      ensures mmresult[..] == mm0[..]
    {
      ghost var before := storePos;
      storePos := (storePos + 1) % n;
      CopyRow(mm0, pp0);
      ghost var h' := h + [pp0[..]];
      hide Slot;
      forall d, t | 0 <= d < n && d < |h'| && 0 <= t < 64
        ensures ppresult[Slot(storePos, d, n), t] == h'[|h'| - 1 - d][t]
      {
        if d > 0 {
          SlotAdvance(before, d - 1, n);
          assert h'[|h'| - 1 - d] == h[|h| - 1 - (d - 1)];
        } else {
          SlotHere(storePos, n);
        }
      }
    }

    lemma HoldsNothing(n: nat)
      requires Shape() && 0 < n <= TRACEBACK_MAX
      ensures Holds([], n)
    {
    }

    /** The first state of largest metric, that metric, and the smallest metric. */
    method FindBest() returns (beststate: nat, bestmetric: byte, minmetric: byte)
      requires Shape()
      ensures beststate == FirstMax(mmresult[..]) && bestmetric == mmresult[beststate]
      ensures forall i | 0 <= i < 64 :: minmetric <= mmresult[i]
      ensures exists i :: 0 <= i < 64 && minmetric == mmresult[i]
    {
      beststate := 0;
      bestmetric := mmresult[beststate];
      minmetric := mmresult[beststate];
      for i := 1 to 64
        invariant beststate < i && bestmetric == mmresult[beststate]
        invariant forall j | 0 <= j < i :: mmresult[j] <= bestmetric
        invariant forall j | 0 <= j < beststate :: mmresult[j] < bestmetric
        invariant forall j | 0 <= j < i :: minmetric <= mmresult[j]
        invariant exists j :: 0 <= j < i && minmetric == mmresult[j]
      {
        if mmresult[i] > bestmetric {
          bestmetric := mmresult[i];
          beststate := i;
        }
        if mmresult[i] < minmetric {
          minmetric := mmresult[i];
        }
      }
      FirstMaxIsUnique(mmresult[..], beststate);
    }

    /** Follows the stored rows back and returns the byte of the oldest of them. */
    method TraceBack(beststate: nat, n: nat, ghost h: seq<row>) returns (c: byte)
      requires Shape() && 0 < n <= TRACEBACK_MAX && storePos < n && Holds(h, n) && beststate < 64
      ensures n <= |h| ==> c == Walk(h, beststate, n - 1)
    {
      var s, pos := beststate, storePos;
      ghost var rest := h;
      for i := 0 to n - 1
        invariant 0 <= s < 64 && pos == Slot(storePos, i, n)
        invariant n <= |h| ==> |rest| == |h| - i && rest <= h
        invariant n <= |h| ==> Walk(h, beststate, n - 1) == Walk(rest, s, n - 1 - i)
      {
        if n <= |h| {
          assert rest[|rest| - 1] == h[|h| - 1 - i];
          rest := rest[..|rest| - 1];
        }
        s := ppresult[pos, s] / 4;
        SlotRetreat(storePos, i, n);
        pos := (pos - 1 + n) % n;
      }
      c := ppresult[pos, s];
      if n <= |h| {
        assert rest[|rest| - 1] == h[|h| - n];
      }
    }

    /** Stores the row, traces back from the best state, then clears the paths and normalises the metrics. */
    method GetOutput(mm0: array<byte>, pp0: array<byte>, n: nat, ghost h: seq<row>)
      returns (bestmetric: byte, outbuf: byte, ghost minmetric: byte)
      requires Shape() && 0 < n <= TRACEBACK_MAX && Holds(h, n)
      requires mm0.Length == pp0.Length == 64 && mm0 != pp0 && mmresult !in {mm0, pp0}
      modifies this, mmresult, ppresult, mm0, pp0
      ensures Holds(h + [old(pp0[..])], n)
      ensures bestmetric == old(mm0[..])[FirstMax(old(mm0[..]))]
      ensures n <= |h| + 1 ==> outbuf == Walk(h + [old(pp0[..])], FirstMax(old(mm0[..])), n - 1)
      ensures forall i | 0 <= i < 64 :: minmetric <= old(mm0[i])
      ensures exists i :: 0 <= i < 64 && minmetric == old(mm0[i])
      ensures forall i | 0 <= i < 64 :: mm0[i] == old(mm0[i]) - minmetric
      ensures forall i | 0 <= i < 64 :: pp0[i] == 0
    {
      hide TracebackBuffer.Holds, Walk;
      Store(mm0, pp0, n, h);
      var beststate, best, least := FindBest();
      bestmetric, minmetric := best, least;
      outbuf := TraceBack(beststate, n, h + [pp0[..]]);
      for i := 0 to 64
        modifies pp0, mm0
        invariant forall j | 0 <= j < i :: pp0[j] == 0 && mm0[j] == old(mm0[j]) - least
        invariant forall j | i <= j < 64 :: mm0[j] == old(mm0[j])
      {
        pp0[i] := 0;
        assert least <= mmresult[i] == old(mm0[i]);
        mm0[i] := (mm0[i] - least) % 256;
      }
    }
  }

  // ----- configuration

  datatype Encoding =
    | BPSK_1_2 | BPSK_3_4 | QPSK_1_2 | QPSK_3_4 | QAM16_1_2 | QAM16_3_4 | QAM64_2_3 | QAM64_3_4

  function TracebackDepth(e: Encoding): nat {
    match e
    case BPSK_1_2 | QPSK_1_2 | QAM16_1_2 => 5
    case QAM64_2_3 => 9
    case _ => 10
  }

  function PatternOf(e: Encoding): pattern {
    match e
    case BPSK_1_2 | QPSK_1_2 | QAM16_1_2 => PUNCTURE_1_2
    case QAM64_2_3 => PUNCTURE_2_3
    case _ => PUNCTURE_3_4
  }

  // ----- the decoder

  ghost predicate NoPairErased(y: seq<int>) {
    forall i | 0 <= i && 2 * i + 1 < |y| :: y[2 * i] != 2 || y[2 * i + 1] != 2
  }

  class Decoder {
    var ntraceback: nat
    var depuncturePattern: pattern
    var rateK: nat
    const traceback: TracebackBuffer
    const metric0: array<byte>
    const metric1: array<byte>
    const path0: array<byte>
    const path1: array<byte>
    const brtab0: array<byte>
    const brtab1: array<byte>
    const depunctured: array<byte>
    const decoded: array<byte>

    /** All static storage starts out zero. */
    constructor ()
      ensures Valid() && fresh(Repr())
      ensures metric0[..] == seq(64, _ => 0)
    {
      ntraceback, depuncturePattern, rateK := 5, PUNCTURE_1_2, 1;
      traceback := new TracebackBuffer();
      metric0, metric1 := new byte[64](_ => 0), new byte[64](_ => 0);
      path0, path1 := new byte[64](_ => 0), new byte[64](_ => 0);
      brtab0, brtab1 := new byte[32](_ => 0), new byte[32](_ => 0);
      depunctured := new byte[MAX_ENCODED_BITS](_ => 0);
      decoded := new byte[MAX_ENCODED_BITS * 3 / 4](_ => 0);
      new;
      ZeroIsSettled(metric0[..]);
    }

    ghost function Repr(): set<object> {
      {this, traceback, traceback.mmresult, traceback.ppresult,
       metric0, metric1, path0, path1, brtab0, brtab1, depunctured, decoded}
    }

    /** The buffers have their sizes and do not overlap. */
    ghost predicate Shape() {
      && traceback.Shape()
      && metric0.Length == metric1.Length == path0.Length == path1.Length == 64
      && brtab0.Length == brtab1.Length == 32
      && depunctured.Length == MAX_ENCODED_BITS && decoded.Length == MAX_ENCODED_BITS * 3 / 4
      && metric0 !in {metric1, path0, path1, traceback.mmresult}
      && metric1 !in {path0, path1, traceback.mmresult}
      && path0 !in {path1, traceback.mmresult} && path1 != traceback.mmresult
      && brtab0 != brtab1
    }

    /** What holds between two frames: settled metrics, empty paths, and no stale doubly erased pair. */
    ghost predicate Valid()
      reads Repr()
    {
      && Shape()
      && IsSettled(metric0[..]) && AtMost(path0, 0)
      && (forall c | 0 <= c < depunctured.Length :: depunctured[c] <= 2)
      && NoPairErased(depunctured[..])
    }

    method ViterbiChunksInit()
      requires Shape() && AtMost(path0, 0)
      modifies metric0, path0, brtab0, brtab1, traceback.mmresult, traceback.ppresult
      ensures metric0[..] == InitialMetrics(old(metric0[..]))
      ensures forall t | 0 <= t < 64 :: metric0[t] == if t < 4 then 0 else old(metric0[t])
      ensures AtMost(path0, 0)
      ensures IsBranchTable(brtab0, brtab1) && traceback.IsClear()
    {
      for i := 0 to 4
        modifies metric0, path0
        invariant forall t | 0 <= t < 64 :: metric0[t] == if t < i then 0 else old(metric0[t])
        invariant AtMost(path0, 0)
      {
        metric0[i] := 0;
        path0[i] := 0;
      }
      assert metric0[..] == InitialMetrics(old(metric0[..]));
      InitBranchTables();
      traceback.Clear();
    }

    method InitBranchTables()
      requires Shape()
      modifies brtab0, brtab1
      ensures IsBranchTable(brtab0, brtab1)
    {
      hide OutA, OutB, Parity, Partab, And;
      for i := 0 to 32
        invariant forall n | 0 <= n < i :: brtab0[n] == OutA(n, 0) && brtab1[n] == OutB(n, 0)
      {
        PartabIsParity(And(2 * i, POLY_A));
        PartabIsParity(And(2 * i, POLY_B));
        PolynomialsAreGenerators(i, 0);
        brtab0[i] := Partab(And(2 * i, POLY_A));
        brtab1[i] := Partab(And(2 * i, POLY_B));
      }
    }

    method Reset(e: Encoding)
      requires Shape() && AtMost(path0, 0)
      modifies this, metric0, path0, brtab0, brtab1, traceback.mmresult, traceback.ppresult
      ensures ntraceback == TracebackDepth(e) && depuncturePattern == PatternOf(e)
      ensures match e
              case BPSK_1_2 | QPSK_1_2 | QAM16_1_2 =>
                ntraceback == 5 && rateK == 1 && depuncturePattern == [1, 1]
              case QAM64_2_3 =>
                ntraceback == 9 && rateK == 2 && depuncturePattern == [1, 1, 1, 0]
              case BPSK_3_4 | QPSK_3_4 | QAM16_3_4 | QAM64_3_4 =>
                ntraceback == 10 && rateK == 3 && depuncturePattern == [1, 1, 1, 0, 0, 1]
      ensures metric0[..] == InitialMetrics(old(metric0[..]))
      ensures AtMost(path0, 0)
      ensures IsBranchTable(brtab0, brtab1) && traceback.IsClear()
    {
      ViterbiChunksInit();
      match e {
        case BPSK_1_2 | QPSK_1_2 | QAM16_1_2 =>
          ntraceback, depuncturePattern, rateK := 5, PUNCTURE_1_2, 1;
        case QAM64_2_3 =>
          ntraceback, depuncturePattern, rateK := 9, PUNCTURE_2_3, 2;
        case BPSK_3_4 | QPSK_3_4 | QAM16_3_4 | QAM64_3_4 =>
          ntraceback, depuncturePattern, rateK := 10, PUNCTURE_3_4, 3;
      }
    }

    /** One kernel call on four symbols of the stream advances the dynamic program by two steps. */
    method RunButterfly(symbols: array<byte>, at: nat, ghost m0: bias, ghost y: seq<int>, ghost w: nat, ghost sub: int)
      requires Shape() && IsBranchTable(brtab0, brtab1)
      requires at + 4 <= symbols.Length && at % 2 == 0 && y == symbols[..] && NoPairErased(y)
      requires forall c | 0 <= c < symbols.Length :: symbols[c] <= 2
      requires w <= at / 2 <= w + 6
      requires Tracks(m0, Gains(y), w, at / 2, sub, metric0[..], path0[..])
      requires IsWindowStart(m0, Gains(y), w, sub) && StaysClose(m0, Gains(y))
      modifies metric0, metric1, path0, path1
      ensures Tracks(m0, Gains(y), w, at / 2 + 2, sub, metric0[..], path0[..])
      ensures WithinTwelve(metric0[..]) && WithinTwelve(metric1[..])
    {
      hide Tracks, IsWindowStart, StepMetrics, StepPaths, Gains, StaysClose, WithinTwelve;
      ghost var k := at / 2;
      ghost var m, p := metric0[..], path0[..];
      RowFitsKernel(m0, y, w, k, sub, m, p);
      KernelTracks(m0, y, w, k, sub, m, p);
      KernelStaysClose(m0, y, w, k, sub, m, p);
      assert forall t | 0 <= t < 64 :: m[t] == metric0[t] && p[t] == path0[t];
      var s: seq<symbol> := [symbols[at], symbols[at + 1], symbols[at + 2], symbols[at + 3]];
      assert s[0] == y[2 * k] && s[1] == y[2 * k + 1] && s[2] == y[2 * (k + 1)] && s[3] == y[2 * (k + 1) + 1];
      ViterbiButterfly2(s, brtab0, brtab1, metric0, metric1, path0, path1);
    }

    /**
     The c-th store: a full window ends, the row is stored and normalised, and from the n-th
     store on one output byte is unpacked.
     */
    method StoreWindow(ghost m0: bias, ghost y: seq<int>, ghost w: nat, ghost sub: int, ghost h: seq<row>,
                       outCount: nat)
      returns (ghost h': seq<row>, ghost sub': int)
      requires Shape() && 0 < ntraceback <= TRACEBACK_MAX && outCount == |h|
      requires w == (if |h| == 0 then 0 else StoreTime(|h| - 1))
      requires Tracks(m0, Gains(y), w, StoreTime(|h|), sub, metric0[..], path0[..])
      requires IsHistory(m0, Gains(y), h) && traceback.Holds(h, ntraceback)
      requires outCount >= ntraceback ==> 8 * (outCount - ntraceback) + 8 <= decoded.Length
      modifies traceback, traceback.mmresult, traceback.ppresult, metric0, path0, decoded
      ensures |h'| == |h| + 1 && IsHistory(m0, Gains(y), h') && traceback.Holds(h', ntraceback)
      ensures Tracks(m0, Gains(y), StoreTime(|h|), StoreTime(|h|), sub', metric0[..], path0[..])
      ensures IsWindowStart(m0, Gains(y), StoreTime(|h|), sub')
      ensures forall i | 0 <= i < 8 * (outCount - ntraceback) && i < decoded.Length :: decoded[i] == old(decoded[i])
      ensures outCount >= ntraceback ==>
                forall i | 8 * (outCount - ntraceback) <= i < 8 * (outCount - ntraceback) + 8 ::
                  decoded[i] == DecodedBit(m0, Gains(y), ntraceback, i)
    {
      hide Tracks, IsWindow, Values, FirstMax, Walk, DecodedBit, Gains, IsFloor;
      ghost var g := Gains(y);
      ghost var k := StoreTime(|h|);
      ghost var m, p: row := metric0[..], path0[..];
      StoredRowIsWindow(m0, g, |h|, sub, m, p);
      BestStateOfRow(m0, g, w, k, sub, m, p);
      h' := h + [p];
      assert IsHistory(m0, g, h');
      var best, c;
      ghost var least;
      best, c, least := traceback.GetOutput(metric0, path0, ntraceback, h);
      sub' := sub + least;
      NormaliseTracks(m0, g, w, k, sub, m, p, least);
      assert metric0[..] == seq(64, t requires 0 <= t < 64 => m[t] - least);
      assert path0[..] == seq(64, _ => 0);
      ghost var m', p' := metric0[..], path0[..];
      if outCount >= ntraceback {
        for i := 0 to 8
          modifies decoded
          invariant forall j | 0 <= j < 8 * (outCount - ntraceback) :: decoded[j] == old(decoded[j])
          invariant forall j | 8 * (outCount - ntraceback) <= j < 8 * (outCount - ntraceback) + i ::
                      decoded[j] == DecodedBit(m0, g, ntraceback, j)
        {
          WalkedByteIsOutput(m0, g, h', ntraceback, i);
          decoded[(outCount - ntraceback) * 8 + i] := Shr(c, 7 - i) % 2;
        }
      }
      assert metric0[..] == m' && path0[..] == p';
    }

    /** A rate 3/4 frame of n = 4a + 3 symbols ends on an erasure; the stale symbol it is paired with is not one. */
    ghost predicate NoStaleErasure(n: nat)
      reads depunctured
    {
      var c := PositionOf(PUNCTURE_3_4, n);
      n % 4 == 3 && c < depunctured.Length ==> depunctured[c] != 2
    }

    /** Depunctures a frame so that no pair is erased altogether, the stale rest of the buffer included. */
    method DepunctureFrame(nSym: nat, nCbps: nat, input: array<byte>)
      requires Shape() && input != depunctured && depuncturePattern != PUNCTURE_1_2
      requires |depuncturePattern| == 2 * rateK
      requires nSym * nCbps <= input.Length
      requires depuncturePattern == PUNCTURE_3_4 ==> NoStaleErasure(nSym * nCbps)
      requires PositionOf(depuncturePattern, nSym * nCbps) <= MAX_ENCODED_BITS
      requires forall c | 0 <= c < input.Length :: input[c] < 2
      requires forall c | 0 <= c < depunctured.Length :: depunctured[c] <= 2
      requires NoPairErased(depunctured[..])
      modifies depunctured
      ensures forall c | 0 <= c < depunctured.Length :: depunctured[c] <= 2
      ensures NoPairErased(depunctured[..])
      ensures IsDepunctured(depuncturePattern, input[..nSym * nCbps],
                            depunctured[..PositionOf(depuncturePattern, nSym * nCbps)])
    {
      hide Rank;
      ghost var stale := depunctured[..];
      var count := Depuncture(depuncturePattern, rateK, input, nSym, nCbps, depunctured);
      PositionHasRank(depuncturePattern, nSym * nCbps);
      StraddlingPair(depuncturePattern, count);
      DepuncturedPairs(depuncturePattern, input[..nSym * nCbps], stale, depunctured[..], count);
    }

    /** Where the frame y stands: the rows track the dynamic program and the buffer holds the history. */
    ghost predicate InStep(m0: bias, y: seq<int>, w: nat, k: nat, sub: int, h: seq<row>)
      requires Shape() && 0 < ntraceback <= TRACEBACK_MAX
      reads this, metric0, path0, traceback, traceback.ppresult
    {
      && w <= k && Tracks(m0, Gains(y), w, k, sub, metric0[..], path0[..]) && IsWindowStart(m0, Gains(y), w, sub)
      && IsHistory(m0, Gains(y), h) && traceback.Holds(h, ntraceback) && StaysClose(m0, Gains(y))
    }

    /** Bits delivered after the given number of stores. */
    function Delivered(outCount: nat): nat
      reads this`ntraceback
    {
      if outCount <= ntraceback then 0 else 8 * (outCount - ntraceback)
    }

    /** A turn of the loop at a multiple of four: a kernel call and, at the end of a window, a store. */
    method KernelTurnOfLoop(symbols: array<byte>, inCount: nat, outCount: nat,
                            ghost m0: bias, ghost w: nat, ghost k: nat, ghost sub: int, ghost h: seq<row>)
      returns (stored: bool, ghost w': nat, ghost sub': int, ghost h': seq<row>)
      requires Shape() && IsBranchTable(brtab0, brtab1) && 0 < ntraceback <= TRACEBACK_MAX
      requires symbols !in {metric0, metric1, path0, path1, traceback.mmresult, decoded}
      requires NoPairErased(symbols[..]) && forall c | 0 <= c < symbols.Length :: symbols[c] <= 2
      requires inCount % 4 == 0 && outCount == |h| && 2 * StoreTime(outCount) <= symbols.Length
      requires Delivered(outCount + 1) <= decoded.Length
      requires OnSchedule(inCount, outCount, k, w) && InStep(m0, symbols[..], w, k, sub, h)
      requires forall i | 0 <= i < Delivered(outCount) ::
                 decoded[i] == DecodedBit(m0, Gains(symbols[..]), ntraceback, i)
      modifies metric0, metric1, path0, path1, traceback, traceback.mmresult, traceback.ppresult, decoded
      ensures stored == (inCount > 0 && inCount % 16 == 8)
      ensures |h'| == outCount + (if stored then 1 else 0) && (stored ==> w' == k + 2)
      ensures OnSchedule(inCount + 1, |h'|, k + 2, w') && InStep(m0, symbols[..], w', k + 2, sub', h')
      ensures forall i | 0 <= i < Delivered(|h'|) :: decoded[i] == DecodedBit(m0, Gains(symbols[..]), ntraceback, i)
    {
      hide Tracks, IsWindowStart, IsHistory, OnSchedule, DecodedBit, Gains, NoPairErased, StaysClose;
      hide TracebackBuffer.Holds, IsBranchTable;
      ghost var y := symbols[..];
      KernelTurn(inCount, outCount, k, w);
      RunButterfly(symbols, inCount / 4 * 4, m0, y, w, sub);
      stored, w', sub', h' := inCount > 0 && inCount % 16 == 8, w, sub, h;
      if stored {
        h', sub' := StoreWindow(m0, y, w, sub, h, outCount);
        w' := k + 2;
      }
    }

    /** The decoding loop. */
    method RunLoop(symbols: array<byte>, nDataBits: nat, ghost m0: bias)
      requires Shape() && IsBranchTable(brtab0, brtab1)
      requires 0 < ntraceback <= TRACEBACK_MAX && nDataBits <= decoded.Length / 8 * 8
      requires symbols !in {metric0, metric1, path0, path1, traceback.mmresult, decoded}
      requires SymbolsRead(nDataBits, ntraceback) <= symbols.Length
      requires NoPairErased(symbols[..]) && forall c | 0 <= c < symbols.Length :: symbols[c] <= 2
      requires metric0[..] == m0 && AtMost(metric0, 12) && AtMost(path0, 0) && StaysClose(m0, Gains(symbols[..]))
      modifies metric0, metric1, path0, path1, traceback, traceback.mmresult, traceback.ppresult, decoded
      ensures AtMost(metric0, 12) && AtMost(path0, 0)
      ensures forall i | 0 <= i < nDataBits :: decoded[i] == DecodedBit(m0, Gains(symbols[..]), ntraceback, i)
      ensures nDataBits > 0 ==>
                IsNormalised(m0, Gains(symbols[..]), StoreTime((nDataBits - 1) / 8 + ntraceback), metric0[..])
      ensures nDataBits == 0 ==> metric0[..] == m0
    {
      hide StaysClose;
      hide Tracks, IsWindowStart, IsHistory, OnSchedule, DecodedBit, Gains, NoPairErased, SymbolsRead, StoreTime;
      hide TracebackBuffer.Holds, IsBranchTable, IsNormalised;
      ghost var y := symbols[..];
      ghost var w, k, sub, h: seq<row> := 0, 0, 0, [];
      var inCount, outCount, nDecoded := 0, 0, 0;
      FrameStarts(m0, Gains(y), metric0[..], path0[..]);
      traceback.HoldsNothing(ntraceback);
      while nDecoded < nDataBits
        invariant symbols[..] == y && outCount == |h|
        invariant OnSchedule(inCount, outCount, k, w) && InStep(m0, y, w, k, sub, h)
        invariant nDecoded == Delivered(outCount) <= decoded.Length && nDecoded < nDataBits + 8
        invariant nDecoded >= nDataBits ==> w == k
        invariant nDataBits == 0 ==> metric0[..] == m0
        invariant forall i | 0 <= i < nDecoded :: decoded[i] == DecodedBit(m0, Gains(y), ntraceback, i)
        decreases 16 * (nDataBits + ntraceback) + 24 - inCount
      {
        ReadsFit(outCount, ntraceback, nDataBits);
        if inCount % 4 == 0 {
          KernelTurnBounds(inCount, outCount, k, w);
          var stored;
          stored, w, sub, h := KernelTurnOfLoop(symbols, inCount, outCount, m0, w, k, sub, h);
          k := k + 2;
          if stored {
            if outCount >= ntraceback {
              nDecoded := nDecoded + 8;
            }
            outCount := outCount + 1;
          }
        } else {
          IdleTurn(inCount, outCount, k, w);
        }
        inCount := inCount + 1;
      }
      EndOfFrame(m0, y, w, sub, h, inCount, nDataBits);
    }

    /** At the end of a frame the metrics are normalised values and the paths are empty. */
    lemma EndOfFrame(m0: bias, y: seq<int>, w: nat, sub: int, h: seq<row>, inCount: nat, nDataBits: nat)
      requires Shape() && 0 < ntraceback <= TRACEBACK_MAX
      requires OnSchedule(inCount, |h|, w, w) && InStep(m0, y, w, w, sub, h)
      requires nDataBits <= Delivered(|h|) < nDataBits + 8
      ensures AtMost(metric0, 12) && AtMost(path0, 0)
      ensures nDataBits > 0 ==>
                IsNormalised(m0, Gains(y), StoreTime((nDataBits - 1) / 8 + ntraceback), metric0[..])
    {
      hide Tracks, IsWindowStart, IsHistory, OnSchedule, Gains, StoreTime, IsNormalised, TracebackBuffer.Holds;
      hide StaysClose;
      WindowStartBounds(m0, y, w, sub, metric0[..], path0[..]);
      if nDataBits > 0 {
        LastStore(inCount, |h|, w, w, ntraceback, nDataBits);
        StoreTimeIsLate((nDataBits - 1) / 8 + ntraceback);
        FrameEnds(m0, Gains(y), w, sub, metric0[..], path0[..]);
      }
      assert forall t | 0 <= t < 64 :: metric0[..][t] == metric0[t] && path0[..][t] == path0[t];
    }

    /** The symbols the decoding loop reads: the input itself at rate 1/2, the depunctured buffer otherwise. */
    ghost function Stream(e: Encoding, input: array<byte>): seq<int>
      reads input, depunctured
    {
      if TracebackDepth(e) == 5 then input[..] else depunctured[..]
    }

    /**
     Decodes one frame.  Each delivered bit is the corresponding bit of a path of largest weight, the
     one that ends in the first best state ntraceback stores after the bit's window.
     */
    method Decode(e: Encoding, nCbps: nat, nSym: nat, nDataBits: nat, input: array<byte>)
      requires Valid() && input !in Repr()
      requires nDataBits <= decoded.Length / 8 * 8
      requires TracebackDepth(e) == 5 ==>
                 && SymbolsRead(nDataBits, 5) <= input.Length
                 && NoPairErased(input[..]) && forall c | 0 <= c < input.Length :: input[c] <= 2
      requires TracebackDepth(e) != 5 ==>
                 && (forall c | 0 <= c < input.Length :: input[c] < 2)
                 && SymbolsRead(nDataBits, TracebackDepth(e)) <= MAX_ENCODED_BITS
                 && nSym * nCbps <= input.Length
                 && (PatternOf(e) == PUNCTURE_3_4 ==> NoStaleErasure(nSym * nCbps))
                 && PositionOf(PatternOf(e), nSym * nCbps) <= MAX_ENCODED_BITS
      modifies Repr()
      ensures Valid()
      ensures var m0, out := [0, 0, 0, 0] + old(metric0[4..]), decoded[..nDataBits];
              match e
              case BPSK_1_2 | QPSK_1_2 | QAM16_1_2 => AreBestBits(m0, input[..], 5, out)
              case QAM64_2_3 => AreBestBits(m0, depunctured[..], 9, out)
              case BPSK_3_4 | QPSK_3_4 | QAM16_3_4 | QAM64_3_4 => AreBestBits(m0, depunctured[..], 10, out)
      ensures var n := nSym * nCbps;
              match e
              case BPSK_1_2 | QPSK_1_2 | QAM16_1_2 => true
              case QAM64_2_3 =>
                IsDepunctured([1, 1, 1, 0], input[..n], depunctured[..4 * (n / 3) + n % 3])
              case BPSK_3_4 | QPSK_3_4 | QAM16_3_4 | QAM64_3_4 =>
                IsDepunctured([1, 1, 1, 0, 0, 1], input[..n], depunctured[..6 * (n / 4) + [0, 1, 2, 5][n % 4]])
      ensures var m0 := InitialMetrics(old(metric0[..]));
              forall i | 0 <= i < nDataBits ::
                decoded[i] == DecodedBit(m0, Gains(Stream(e, input)), TracebackDepth(e), i)
      ensures nDataBits > 0 ==>
                IsNormalised(InitialMetrics(old(metric0[..])), Gains(Stream(e, input)),
                             StoreTime((nDataBits - 1) / 8 + TracebackDepth(e)), metric0[..])
      ensures TracebackDepth(e) != 5 ==>
                IsDepunctured(PatternOf(e), input[..nSym * nCbps],
                              depunctured[..PositionOf(PatternOf(e), nSym * nCbps)])
    {
      hide DecodedBit, Gains, Rank, Kept, IsDepunctured, NoPairErased, SymbolsRead, IsBranchTable, IsNormalised;
      hide AreBestBits;
      ghost var m := metric0[..];
      ghost var m0 := InitialMetrics(m);
      SettledBounds(m);
      hide IsSettled, StaysClose, StoreTime;
      Reset(e);
      var symbols := input;
      if ntraceback != 5 {
        DepunctureFrame(nSym, nCbps, input);
        symbols := depunctured;
      }
      FrameStaysClose(m, symbols[..]);
      RunLoop(symbols, nDataBits, m0);
      DecodedIsBest(m0, symbols[..], ntraceback, decoded[..nDataBits]);
      if nDataBits > 0 {
        StoreTimeIsLate((nDataBits - 1) / 8 + ntraceback);
        NormalisedIsSettled(m0, symbols[..], StoreTime((nDataBits - 1) / 8 + ntraceback), metric0[..]);
      } else {
        ClearedIsSettled(m);
      }
    }
  }

  /**
   Where depuncturing stops: only at rate 3/4, and only after 4a + 3 symbols, is the last position filled an
   erasure that forms a pair with a position of the stale rest.
   */
  lemma StraddlingPair(p: pattern, count: nat)
    requires p != PUNCTURE_1_2 && Kept(p, count)
    ensures count % 2 == 1 && !Kept(p, count - 1) <==> p == PUNCTURE_3_4 && Rank(p, count) % 4 == 3
  {
    hide Kept, Rank;
    assert p == PUNCTURE_2_3 || p == PUNCTURE_3_4;
    if p == PUNCTURE_3_4 {
      RankBySix(count);
      KeptSix(count);
      if count % 2 == 1 { KeptSix(count - 1); }
    } else {
      KeptFour(count);
      if count % 2 == 1 { KeptFour(count - 1); }
    }
  }

  lemma RankBySix(count: nat)
    requires Kept(PUNCTURE_3_4, count)
    ensures Rank(PUNCTURE_3_4, count) % 4 == 3 <==> count % 6 == 5
  {
    hide Kept, Rank;
    KeptSix(count);
    RankDensity(PUNCTURE_3_4, count);
    SixfoldPeriod(count / 6, count % 6, Rank(PUNCTURE_3_4, count));
  }

  lemma SixfoldPeriod(a: nat, r: nat, rank: nat)
    requires r in {0, 1, 2, 5} && 3 * rank == 2 * (6 * a + r) + [0, 1, 2, 3, 1, -1][r]
    ensures rank % 4 == 3 <==> r == 5
  {
    assert rank == 4 * a + if r == 5 then 3 else r;
  }

  /** A depunctured prefix in front of a stale rest erases no pair, unless an erasure straddles the border. */
  lemma DepuncturedPairs(p: pattern, x: seq<int>, stale: seq<int>, y: seq<int>, count: nat)
    requires count <= |y| == |stale|
    requires count % 2 == 0 || Kept(p, count - 1) || (count < |y| && stale[count] != 2)
    requires IsDepunctured(p, x, y[..count]) && forall c | 0 <= c < |x| :: x[c] < 2
    requires NoPairErased(stale) && forall c | 0 <= c < |stale| :: stale[c] <= 2
    requires forall c | count <= c < |y| :: y[c] == stale[c]
    ensures NoPairErased(y) && forall c | 0 <= c < |y| :: y[c] <= 2
  {
    hide Rank, Kept;
    forall i | 0 <= i && 2 * i + 1 < |y|
      ensures y[2 * i] != 2 || y[2 * i + 1] != 2
    {
      PairNotErased(p, i);
      if 2 * i < count {
        assert y[..count][2 * i] == y[2 * i];
        assert 2 * i + 1 < count ==> y[..count][2 * i + 1] == y[2 * i + 1];
        assert 2 * i + 1 == count ==> Kept(p, 2 * i) || y[2 * i + 1] == stale[count];
      }
    }
    forall c | 0 <= c < |y|
      ensures y[c] <= 2
    {
      if c < count {
        assert y[..count][c] == y[c];
      }
    }
  }
}
