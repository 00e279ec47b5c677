/**
 Exactly which bits of an error-free frame are decoded right.  The code is linear, so what a path misses of the
 frame that was sent is what the encoder sends along the difference of the two; the metrics a frame starts with
 decide between difference paths that keep a bit and difference paths that flip it.
 */
module ErrorFreeFrames {
  import opened Bits
  import opened ConvolutionalCode
  import opened Linearity
  import opened Trellis
  import opened Traceback
  import opened Butterfly
  import opened Puncturing
  import opened Decoding
  import opened ViterbiDecoder
  import opened RoundTrip

  // ----- what a path misses of an error-free frame

  /** What a path misses of an error-free frame are the kept ones of its difference from what was sent. */
  lemma {:induction false} LossIsOnes(pat: pattern, y: seq<int>, sent: Path, p: Path)
    requires IsReceived(pat, y, sent) && |p.bits| == |sent.bits|
    ensures var d := Diff(sent, p); Loss(y, p) == Ones(pat, 0, d.start, d.bits)
    decreases |p.bits|
  {
    hide Gains, Gained, Encode, Kept, Toll, Diff;
    DiffLength(sent, p);
    if |p.bits| == 0 {
      NothingGained(Gains(y), p.start, p.bits);
    } else {
      var n := |p.bits| - 1;
      var d := Diff(sent, p);
      var sent', p' := Head(sent, n), Head(p, n);
      EncodePrefix(sent.start, sent.bits, n);
      LossIsOnes(pat, y, sent', p');
      HeadOfDiff(sent, p, n);
      OnesSnoc(pat, 0, d.start, d.bits);
      LastMiss(pat, y, sent, p);
    }
  }

  lemma HeadOfDiff(p: Path, q: Path, n: nat)
    requires n <= |p.bits| == |q.bits|
    ensures Diff(Head(p, n), Head(q, n)) == Head(Diff(p, q), n)
  {
    assert Flips(p.bits[..n], q.bits[..n]) == Flips(p.bits, q.bits)[..n];
  }

  /** What a path misses in its last step. */
  lemma MissOfStep(y: seq<int>, p: Path)
    requires |p.bits| > 0 && 2 * |p.bits| <= |y|
    ensures var n := |p.bits| - 1;
            var a, b := Encode(p.start, p.bits)[2 * n], Encode(p.start, p.bits)[2 * n + 1];
            Loss(y, p) == Loss(y, Head(p, n)) + (if y[2 * n] == 2 || y[2 * n] == a then 0 else 1)
                                              + (if y[2 * n + 1] == 2 || y[2 * n + 1] == b then 0 else 1)
  {
    hide Gained, Encode, OutA, OutB;
    GainedOneMore(Gains(y), p.start, p.bits);
    EncodeAt(p.start, p.bits, |p.bits| - 1);
  }

  lemma LastMiss(pat: pattern, y: seq<int>, sent: Path, p: Path)
    requires IsReceived(pat, y, sent) && |p.bits| == |sent.bits| > 0
    ensures var n, d := |p.bits| - 1, Diff(sent, p);
            |d.bits| == n + 1 && Loss(y, p) == Loss(y, Head(p, n)) + Toll(pat, n, Run(d.start, d.bits[..n]), d.bits[n])
  {
    hide Loss, Encode, Kept, Diff, OutA, OutB, Run;
    var n, d := |p.bits| - 1, Diff(sent, p);
    DiffLength(sent, p);
    MissOfStep(y, p);
    EncodeOfDiff(sent, p, n);
    EncodeAt(d.start, d.bits, n);
  }

  // ----- what follows the frame

  function Least(a: nat, b: nat): nat {
    if b < a then b else a
  }

  /** How many of two received symbols the step from q on input b misses. */
  function Misses(z0: int, z1: int, q: state, b: bit): nat {
    (if z0 == 2 || z0 == OutA(q, b) then 0 else 1) + (if z1 == 2 || z1 == OutB(q, b) then 0 else 1)
  }

  /** The least number of symbols of the stream z that a path of j steps from q misses. */
  function Rest(z: seq<int>, j: nat, q: state): nat
    requires 2 * j <= |z|
    decreases j
  {
    if j == 0 then 0
    else Least(Misses(z[0], z[1], q, 0) + Rest(z[2..], j - 1, Next(q, 0)),
               Misses(z[0], z[1], q, 1) + Rest(z[2..], j - 1, Next(q, 1)))
  }

  lemma LossOfFirst(z: seq<int>, q: state, u: seq<bit>)
    requires |u| > 0 && 2 * |u| <= |z|
    ensures Loss(z, Path(q, u)) == Misses(z[0], z[1], q, u[0]) + Loss(z[2..], Path(Next(q, u[0]), u[1..]))
  {
    hide OutA, OutB, Gained, Gains, Received;
    var p := Path(q, u);
    LossSplits(z, p, 1);
    assert u[..1] == [u[0]] && [u[0]][..0] == [] && Run(q, []) == q;
    assert Run(q, [u[0]]) == Next(q, u[0]);
    assert Tail(p, 1) == Path(Next(q, u[0]), u[1..]);
    OneStepLoss(z, q, u[0]);
  }

  lemma OneStepLoss(z: seq<int>, q: state, b: bit)
    requires 2 <= |z|
    ensures Loss(z, Path(q, [b])) == Misses(z[0], z[1], q, b)
  {
    hide OutA, OutB;
    GainedOneMore(Gains(z), q, [b]);
    NothingGained(Gains(z), q, []);
    assert [b][..0] == [];
    assert Received(z, 1) == (if z[0] == 2 then 0 else 1) + (if z[1] == 2 then 0 else 1);
  }

  /** A first input that misses no more. */
  function Cheaper(z: seq<int>, j: nat, q: state): (e: bit)
    requires 0 < j && 2 * j <= |z|
    ensures Rest(z, j, q) == Misses(z[0], z[1], q, e) + Rest(z[2..], j - 1, Next(q, e))
  {
    hide Misses, Next;
    if Misses(z[0], z[1], q, 1) + Rest(z[2..], j - 1, Next(q, 1))
     < Misses(z[0], z[1], q, 0) + Rest(z[2..], j - 1, Next(q, 0)) then 1 else 0
  }

  /** Inputs that miss no more. */
  function Onward(z: seq<int>, j: nat, q: state): (u: seq<bit>)
    requires 2 * j <= |z|
    ensures |u| == j && Loss(z, Path(q, u)) == Rest(z, j, q)
    decreases j
  {
    hide Misses, Loss, Next, Rest;
    if j == 0 then
      NoStepsLoss(z, q);
      []
    else
      var e := Cheaper(z, j, q);
      var v := Onward(z[2..], j - 1, Next(q, e));
      LossOfCons(z, q, e, v);
      [e] + v
  }

  lemma LossOfCons(z: seq<int>, q: state, e: bit, v: seq<bit>)
    requires 2 * |v| + 2 <= |z|
    ensures Loss(z, Path(q, [e] + v)) == Misses(z[0], z[1], q, e) + Loss(z[2..], Path(Next(q, e), v))
  {
    hide Loss, Misses;
    LossOfFirst(z, q, [e] + v);
    assert ([e] + v)[1..] == v;
  }

  lemma NoStepsLoss(z: seq<int>, q: state)
    ensures Loss(z, Path(q, [])) == 0 == Rest(z, 0, q)
  {
    NothingGained(Gains(z), q, []);
  }

  lemma {:induction false} RestIsLeast(z: seq<int>, q: state, u: seq<bit>)
    requires 2 * |u| <= |z|
    ensures Rest(z, |u|, q) <= Loss(z, Path(q, u))
    decreases |u|
  {
    hide Misses, Loss;
    if |u| != 0 {
      LossOfFirst(z, q, u);
      RestIsLeast(z[2..], Next(q, u[0]), u[1..]);
    }
  }

  /** What it costs to go on to step n from a state that differs by x from the state s the frame ended in at step m. */
  function CostBehind(y: seq<int>, m: nat, n: nat, s: state): state -> nat
    requires m <= n && 2 * n <= |y|
  {
    (x: state) => Rest(y[2 * m..], n - m, Differ(s, x))
  }

  // ----- the nearest path that keeps or flips a bit

  /**
   The least number of kept ones on inputs from x at step k up to step n, with b as the input at step i, and of
   what it costs to go on from there.
   */
  function Dist(pat: pattern, k: nat, n: nat, x: state, i: nat, b: bit, cost: state -> nat): nat
    decreases n - k
  {
    if k >= n then cost(x)
    else if k == i then Toll(pat, k, x, b) + Dist(pat, k + 1, n, Next(x, b), i, b, cost)
    else Least(Toll(pat, k, x, 0) + Dist(pat, k + 1, n, Next(x, 0), i, b, cost),
               Toll(pat, k, x, 1) + Dist(pat, k + 1, n, Next(x, 1), i, b, cost))
  }

  /** The first of the inputs for which it is no more than that. */
  function Nearer(pat: pattern, k: nat, n: nat, x: state, i: nat, b: bit, cost: state -> nat): (e: bit)
    requires k < n
    ensures k == i ==> e == b
    ensures Dist(pat, k, n, x, i, b, cost) == Toll(pat, k, x, e) + Dist(pat, k + 1, n, Next(x, e), i, b, cost)
  {
    hide Toll, Next;
    if k == i then b
    else if Toll(pat, k, x, 1) + Dist(pat, k + 1, n, Next(x, 1), i, b, cost)
          < Toll(pat, k, x, 0) + Dist(pat, k + 1, n, Next(x, 0), i, b, cost) then 1 else 0
  }

  /** All of them. */
  function Nearest(pat: pattern, k: nat, n: nat, x: state, i: nat, b: bit, cost: state -> nat): (u: seq<bit>)
    requires k <= n
    ensures |u| == n - k && (k <= i < n ==> u[i - k] == b)
    ensures Ones(pat, k, x, u) + cost(Run(x, u)) == Dist(pat, k, n, x, i, b, cost)
    decreases n - k
  {
    hide Toll, Next;
    if k == n then []
    else
      hide Dist;
      var e := Nearer(pat, k, n, x, i, b, cost);
      var u := [e] + Nearest(pat, k + 1, n, Next(x, e), i, b, cost);
      RunFromFirst(x, u);
      u
  }

  lemma {:induction false} DistIsLeast(pat: pattern, k: nat, n: nat, x: state, i: nat, b: bit, cost: state -> nat,
                                       u: seq<bit>)
    requires k <= n && |u| == n - k && (k <= i < n ==> u[i - k] == b)
    ensures Dist(pat, k, n, x, i, b, cost) <= Ones(pat, k, x, u) + cost(Run(x, u))
    decreases n - k
  {
    hide Toll;
    if k < n {
      RunFromFirst(x, u);
      DistIsLeast(pat, k + 1, n, Next(x, u[0]), i, b, cost, u[1..]);
    }
  }

  /**
   The largest metric with which a path can end whose input at step i equals that of the path sent from s in m
   steps (b = 0) or differs from it (b = 1), counted from the number of symbols received.
   */
  function Lead(m0: bias, pat: pattern, s: state, m: nat, i: nat, b: bit, cost: state -> nat): int {
    var v := Leads(m0, pat, s, m, i, b, cost);
    v[FirstMax(v)]
  }

  function Leads(m0: bias, pat: pattern, s: state, m: nat, i: nat, b: bit, cost: state -> nat): (v: seq<int>)
    ensures |v| == 64
  {
    seq(64, t requires 0 <= t < 64 => m0[t] - Dist(pat, 0, m, Differ(s, t), i, b, cost))
  }

  /** A path starts with its metric and loses every symbol it misses. */
  function Standing(m0: bias, y: seq<int>, p: Path): int
    requires 2 * |p.bits| <= |y|
  {
    m0[p.start] - Loss(y, p)
  }

  /** The symbols missed: kept ones of the difference within the frame, and what the rest of the path misses. */
  lemma LossWithinAndBehind(pat: pattern, y: seq<int>, sent: Path, p: Path)
    requires IsReceived(pat, y, sent) && |sent.bits| <= |p.bits| && 2 * |p.bits| <= |y|
    ensures var m, d := |sent.bits|, Diff(sent, Head(p, |sent.bits|));
            && Loss(y, p) == Ones(pat, 0, d.start, d.bits) + Loss(y[2 * m..], Tail(p, m))
            && Tail(p, m).start == Differ(sent.End(), Run(d.start, d.bits))
  {
    hide Loss, Diff, Ones, Encode, Kept, Run, Differ;
    var m := |sent.bits|;
    LossSplits(y, p, m);
    LossIsOnes(pat, y, sent, Head(p, m));
    EndOfDiff(sent, Head(p, m));
    DifferTwice(sent.End(), Tail(p, m).start);
  }

  /** No path that keeps, or flips, bit i stands better than the lead. */
  lemma LeadIsUpperBound(m0: bias, pat: pattern, y: seq<int>, sent: Path, p: Path, i: nat)
    requires IsReceived(pat, y, sent) && i < |sent.bits| <= |p.bits| && 2 * |p.bits| <= |y|
    ensures var m, n := |sent.bits|, |p.bits|;
            Standing(m0, y, p) <=
            Lead(m0, pat, sent.start, m, i, Plus(sent.bits[i], p.bits[i]), CostBehind(y, m, n, sent.End()))
  {
    hide Ones, Dist, Differ, FirstMax, Loss, Run, Rest, IsReceived;
    var m, n, b := |sent.bits|, |p.bits|, Plus(sent.bits[i], p.bits[i]);
    var cost := CostBehind(y, m, n, sent.End());
    var d := Diff(sent, Head(p, m));
    LossWithinAndBehind(pat, y, sent, p);
    RestIsLeast(y[2 * m..], Tail(p, m).start, p.bits[m..]);
    DistIsLeast(pat, 0, m, d.start, i, b, cost, d.bits);
    var v := Leads(m0, pat, sent.start, m, i, b, cost);
    assert v[p.start] <= v[FirstMax(v)];
  }

  /** Some path does. */
  lemma LeadIsAttained(m0: bias, pat: pattern, y: seq<int>, sent: Path, n: nat, i: nat, b: bit) returns (p: Path)
    requires IsReceived(pat, y, sent) && i < |sent.bits| <= n && 2 * n <= |y|
    ensures |p.bits| == n && Plus(sent.bits[i], p.bits[i]) == b
    ensures Standing(m0, y, p) ==
            Lead(m0, pat, sent.start, |sent.bits|, i, b, CostBehind(y, |sent.bits|, n, sent.End()))
  {
    hide Ones, Dist, Differ, FirstMax, Loss, Run, Rest, IsReceived;
    var m, cost := |sent.bits|, CostBehind(y, |sent.bits|, n, sent.End());
    var t: state := FirstMax(Leads(m0, pat, sent.start, m, i, b, cost));
    var u := Nearest(pat, 0, m, Differ(sent.start, t), i, b, cost);
    var head := Path(t, Flips(sent.bits, u));
    var onward := Onward(y[2 * m..], n - m, head.End());
    p := Path(t, head.bits + onward);
    assert Flips(sent.bits, head.bits) == u && Head(p, m) == head && Tail(p, m) == Path(head.End(), onward);
    LossWithinAndBehind(pat, y, sent, p);
  }

  // ----- the exact condition

  /** The path keeps (b = 0) or flips (b = 1) bit i and stands best among those that do. */
  predicate IsLeader(m0: bias, pat: pattern, y: seq<int>, sent: Path, n: nat, i: nat, b: bit, p: Path)
    requires i < |sent.bits| <= n && 2 * n <= |y|
  {
    && |p.bits| == n && Plus(sent.bits[i], p.bits[i]) == b
    && Standing(m0, y, p) == Lead(m0, pat, sent.start, |sent.bits|, i, b, CostBehind(y, |sent.bits|, n, sent.End()))
  }

  /** A tie between keeping and flipping bit i is settled in favour of keeping it. */
  ghost predicate TieKeeps(m0: bias, pat: pattern, y: seq<int>, sent: Path, n: nat, i: nat)
    requires i < |sent.bits| <= n && 2 * n <= |y|
  {
    exists p | IsLeader(m0, pat, y, sent, n, i, 0, p) ::
      forall q | IsLeader(m0, pat, y, sent, n, i, 1, q) :: Precedes(p, q)
  }

  /**
   Of the paths of n steps those that keep bit i of the path sent lead those that flip it, or tie with them and the
   tie is settled in their favour.  Which of them lead does not depend on the bits that were sent: it takes the
   metrics, the pattern, the start state and, if the frame ends before step n, its end state and what follows it.
   */
  ghost predicate KeepsBit(m0: bias, pat: pattern, y: seq<int>, sent: Path, n: nat, i: nat)
    requires i < |sent.bits| <= n && 2 * n <= |y|
  {
    var cost := CostBehind(y, |sent.bits|, n, sent.End());
    var keep := Lead(m0, pat, sent.start, |sent.bits|, i, 0, cost);
    var flip := Lead(m0, pat, sent.start, |sent.bits|, i, 1, cost);
    keep > flip || (keep == flip && TieKeeps(m0, pat, y, sent, n, i))
  }

  /** The part of a path that is sent by step n. */
  function SentBy(sent: Path, n: nat): (p: Path)
    ensures |p.bits| == if n < |sent.bits| then n else |sent.bits|
  {
    if n < |sent.bits| then Head(sent, n) else sent
  }

  lemma PartIsReceived(pat: pattern, y: seq<int>, sent: Path, n: nat)
    requires IsReceived(pat, y, sent)
    ensures IsReceived(pat, y, SentBy(sent, n))
  {
    hide Encode, Kept;
    if n < |sent.bits| {
      EncodePrefix(sent.start, sent.bits, n);
    }
  }

  /**
   Bit i of an error-free frame, whatever follows the frame, is right exactly when the paths that keep it lead at the
   store that decides it.
   */
  lemma BitIsRight(pat: pattern, d: nat, m0: bias, y: seq<int>, sent: Path, i: nat)
    requires 0 < d && i < |sent.bits| && IsReceived(pat, y, sent) && 2 * StoreTime(i / 8 + d) <= |y|
    ensures var n := StoreTime(i / 8 + d);
            i < n && (DecodedBit(m0, Gains(y), d, i) == sent.bits[i] <==> KeepsBit(m0, pat, y, SentBy(sent, n), n, i))
  {
    hide Gains, KeepsBit, IsReceived, DecodedBit;
    PartIsReceived(pat, y, sent, StoreTime(i / 8 + d));
    SentBitIsRight(pat, d, m0, y, SentBy(sent, StoreTime(i / 8 + d)), i);
  }

  lemma SentBitIsRight(pat: pattern, d: nat, m0: bias, y: seq<int>, sent: Path, i: nat)
    requires 0 < d && i < |sent.bits| <= StoreTime(i / 8 + d) && 2 * StoreTime(i / 8 + d) <= |y|
    requires IsReceived(pat, y, sent)
    ensures DecodedBit(m0, Gains(y), d, i) == sent.bits[i] <==> KeepsBit(m0, pat, y, sent, StoreTime(i / 8 + d), i)
  {
    hide Gains, Chosen, Lead, Standing, IsReceived, Precedes, Weight, CostBehind;
    var n := StoreTime(i / 8 + d);
    var c := Chosen(m0, Gains(y), i / 8 + d);
    ChosenLength(m0, Gains(y), i / 8 + d);
    var b := Plus(sent.bits[i], c.bits[i]);
    var p0 := LeadIsAttained(m0, pat, y, sent, n, i, 0);
    var p1 := LeadIsAttained(m0, pat, y, sent, n, i, 1);
    ChosenStandsBest(m0, y, i / 8 + d, p0);
    ChosenStandsBest(m0, y, i / 8 + d, p1);
    LeadIsUpperBound(m0, pat, y, sent, c, i);
    assert IsLeader(m0, pat, y, sent, n, i, b, c);
    var cost := CostBehind(y, |sent.bits|, n, sent.End());
    if Lead(m0, pat, sent.start, |sent.bits|, i, 0, cost) == Lead(m0, pat, sent.start, |sent.bits|, i, 1, cost) {
      ChosenSettlesTie(m0, pat, y, sent, d, i);
    }
  }

  lemma ChosenLength(m0: bias, g: gain, c: nat)
    ensures |Chosen(m0, g, c).bits| == StoreTime(c)
  {
    hide FirstMax, Values, Value;
  }

  /** No path stands better than the chosen one, and those that stand as well come after it. */
  lemma ChosenStandsBest(m0: bias, y: seq<int>, c: nat, p: Path)
    requires |p.bits| == StoreTime(c) && 2 * StoreTime(c) <= |y|
    ensures var q := Chosen(m0, Gains(y), c);
            && |q.bits| == |p.bits| && Standing(m0, y, p) <= Standing(m0, y, q)
            && (Standing(m0, y, p) == Standing(m0, y, q) && p != q ==> Precedes(q, p))
  {
    hide Gains, Gained, Received, Chosen, Precedes;
    var q := Chosen(m0, Gains(y), c);
    ChosenLength(m0, Gains(y), c);
    ChosenIsOptimal(m0, Gains(y), c);
    assert Weight(m0, Gains(y), p) <= Weight(m0, Gains(y), q);
    if Weight(m0, Gains(y), p) == Weight(m0, Gains(y), q) && p != q {
      ChosenComesFirst(m0, Gains(y), c, p);
    }
  }

  lemma ChosenSettlesTie(m0: bias, pat: pattern, y: seq<int>, sent: Path, d: nat, i: nat)
    requires 0 < d && i < |sent.bits| <= StoreTime(i / 8 + d) && 2 * StoreTime(i / 8 + d) <= |y|
    requires var n := StoreTime(i / 8 + d);
             var cost := CostBehind(y, |sent.bits|, n, sent.End());
             Lead(m0, pat, sent.start, |sent.bits|, i, 0, cost) == Lead(m0, pat, sent.start, |sent.bits|, i, 1, cost)
    requires var c, n := Chosen(m0, Gains(y), i / 8 + d), StoreTime(i / 8 + d);
             |c.bits| == n && IsLeader(m0, pat, y, sent, n, i, Plus(sent.bits[i], c.bits[i]), c)
    ensures DecodedBit(m0, Gains(y), d, i) == sent.bits[i] <==> TieKeeps(m0, pat, y, sent, StoreTime(i / 8 + d), i)
  {
    hide Gains, Chosen, Lead, Standing, Precedes, CostBehind;
    var n, c := StoreTime(i / 8 + d), Chosen(m0, Gains(y), i / 8 + d);
    if c.bits[i] == sent.bits[i] {
      forall q | IsLeader(m0, pat, y, sent, n, i, 1, q)
        ensures Precedes(c, q)
      {
        ChosenStandsBest(m0, y, i / 8 + d, q);
      }
    } else {
      forall p | IsLeader(m0, pat, y, sent, n, i, 0, p)
        ensures !Precedes(p, c)
      {
        ChosenStandsBest(m0, y, i / 8 + d, p);
        PrecedesOneWay(c, p);
      }
    }
  }

  /**
   The decoder object on an error-free frame, in whatever state it is and whatever follows the frame: each bit that
   was sent is right exactly when the metrics it starts with, and what follows, let the paths lead that keep it.
   */
  method DecodeExactly(decoder: Decoder, e: Encoding, nCbps: nat, nSym: nat, nDataBits: nat, input: array<byte>,
                       ghost pat: pattern, ghost depth: nat, ghost sent: Path)
    requires decoder.Valid() && input !in decoder.Repr()
    requires nDataBits <= decoder.decoded.Length / 8 * 8
    requires match e
             case BPSK_1_2 | QPSK_1_2 | QAM16_1_2 => pat == [1, 1] && depth == 5
             case QAM64_2_3 => pat == [1, 1, 1, 0] && depth == 9
             case BPSK_3_4 | QPSK_3_4 | QAM16_3_4 | QAM64_3_4 => pat == [1, 1, 1, 0, 0, 1] && depth == 10
    requires SymbolsRead(nDataBits, depth) <= if depth == 5 then input.Length else MAX_ENCODED_BITS
    requires nSym * nCbps <= input.Length && forall c | 0 <= c < input.Length :: input[c] < 2
    requires input[..nSym * nCbps] == Punctured(pat, Encode(sent.start, sent.bits))
    requires depth == 10 ==> decoder.NoStaleErasure(nSym * nCbps)
    requires depth != 5 ==> PositionOf(pat, nSym * nCbps) <= MAX_ENCODED_BITS
    modifies decoder.Repr()
    ensures decoder.Valid()
    ensures var m0 := [0, 0, 0, 0] + old(decoder.metric0[4..]);
            var y: seq<int> := if depth == 5 then input[..] else decoder.depunctured[..];
            forall i | 0 <= i < nDataBits && i < |sent.bits| ::
              var n := 8 * (i / 8 + depth) + 6;
              && 2 * n <= |y|
              && (decoder.decoded[i] == sent.bits[i] <==> KeepsBit(m0, pat, y, SentBy(sent, n), n, i))
  {
    hide DecodedBit, KeepsBit, Encode, Punctured, IsReceived, Gains, IsNormalised, NoPairErased;
    ghost var m0 := InitialMetrics(decoder.metric0[..]);
    DecodeReceived(decoder, e, nCbps, nSym, nDataBits, input, pat, depth, sent);
    ghost var y := decoder.Stream(e, input);
    forall i | 0 <= i < nDataBits && i < |sent.bits|
      ensures var n := 8 * (i / 8 + depth) + 6;
              && 2 * n <= |y|
              && (decoder.decoded[i] == sent.bits[i] <==> KeepsBit(m0, pat, y, SentBy(sent, n), n, i))
    {
      assert i / 8 <= (nDataBits - 1) / 8;
      BitIsRight(pat, depth, m0, y, sent, i);
    }
  }
}
