/**
 Two error-free frames on one decoder, fresh at the start: the second is decoded wrong, because the metrics the
 first leaves behind outweigh the difference between the path that was sent and another one.
 */
module TwoFrames {
  import opened Bits
  import opened ConvolutionalCode
  import opened Linearity
  import opened Trellis
  import opened Traceback
  import opened Puncturing
  import opened Decoding
  import opened ViterbiDecoder
  import opened RoundTrip
  import opened ErrorFreeFrames

  function ZeroBits(k: nat): (u: seq<bit>)
    ensures |u| == k
  {
    seq(k, _ => 0)
  }

  /** The bits of the first frame: at the last store, after 46 steps, the encoder is in state 23. */
  const FIRST: seq<bit> := ZeroBits(40) + [0, 1, 0, 1, 1, 1, 0, 0]

  // ----- the metrics a rate 1/2 frame leaves behind

  /** Paths that part from a common state differ in both symbols of that step. */
  lemma {:induction false} PartingLosesTwo(y: seq<int>, p: Path, q: Path)
    requires |p.bits| == |q.bits| && 2 * |p.bits| <= |y|
    requires Agrees(y, q) && (forall c | 0 <= c < 2 * |q.bits| :: y[c] != 2)
    requires p.start == q.start && p != q
    ensures Loss(y, p) >= 2
    decreases |p.bits|
  {
    hide Loss, Agrees, OutA, OutB, Run;
    if p.bits != [] {
      LossSplits(y, p, 1);
      if p.bits[0] == q.bits[0] {
        TailAgrees(y, q, 1);
        assert p.bits[..1] == q.bits[..1];
        assert p.bits == p.bits[..1] + p.bits[1..] && q.bits == q.bits[..1] + q.bits[1..];
        PartingLosesTwo(y[2..], Tail(p, 1), Tail(q, 1));
      } else {
        PartsAtOnce(y, p, q);
      }
    }
  }

  lemma PartsAtOnce(y: seq<int>, p: Path, q: Path)
    requires |p.bits| == |q.bits| > 0 && 2 * |p.bits| <= |y|
    requires Agrees(y, q) && y[0] != 2 && y[1] != 2
    requires p.start == q.start && p.bits[0] != q.bits[0]
    ensures Loss(y, Head(p, 1)) == 2
  {
    hide OutA, OutB;
    FirstMisses(y, p, q);
    if p.start < 32 {
      OutputsFlip(p.start, q.bits[0]);
    } else {
      OutputsFlip(p.start - 32, q.bits[0]);
      OutputsFlip(p.start - 32, p.bits[0]);
    }
  }

  /** What a path misses in its first step. */
  lemma FirstMisses(y: seq<int>, p: Path, q: Path)
    requires |p.bits| > 0 && |q.bits| > 0 && 2 * |p.bits| <= |y| && 2 * |q.bits| <= |y|
    requires Agrees(y, q) && y[0] != 2 && y[1] != 2
    ensures Loss(y, Head(p, 1)) == (if OutA(p.start, p.bits[0]) == OutA(q.start, q.bits[0]) then 0 else 1)
                                 + (if OutB(p.start, p.bits[0]) == OutB(q.start, q.bits[0]) then 0 else 1)
  {
    hide OutA, OutB;
    EncodeAt(q.start, q.bits, 0);
    assert q.bits[..0] == [] && p.bits[..1][..0] == [];
    GainedOneMore(Gains(y), p.start, p.bits[..1]);
    NothingGained(Gains(y), p.start, []);
    assert Received(y, 1) == 2;
  }

  /** At rate 1/2 a path that ends elsewhere than the one that was sent misses two symbols at least. */
  lemma EndsApart(y: seq<int>, p: Path, q: Path)
    requires 33 <= |p.bits| == |q.bits| && 2 * |p.bits| <= |y|
    requires Agrees(y, q) && (forall c | 0 <= c < 2 * |q.bits| :: y[c] != 2)
    requires p.End() != q.End()
    ensures Loss(y, p) >= 2
  {
    hide Run, Encode, Kept, Received, Gained;
    LossSplits(y, p, 17);
    TailEnds(p, 17);
    TailEnds(q, 17);
    TailAgrees(y, q, 17);
    var z := y[34..];
    if Loss(z, Tail(p, 17)) == 0 {
      FullGainIsAgreement(z, Tail(p, 17));
      PathIsUnique(PUNCTURE_1_2, z, Tail(p, 17), Tail(q, 17));
      assert false;
    }
    if Loss(y, Head(p, 17)) == 0 {
      FullGainIsAgreement(y, Head(p, 17));
      EncodePrefix(q.start, q.bits, 17);
      PathIsUnique(PUNCTURE_1_2, y, Head(p, 17), Head(q, 17));
      PartingLosesTwo(z, Tail(p, 17), Tail(q, 17));
    }
  }

  lemma TailEnds(p: Path, w: nat)
    requires w <= |p.bits|
    ensures Tail(p, w).End() == p.End()
  {
    assert p.bits == p.bits[..w] + p.bits[w..];
    RunAppend(p.start, p.bits[..w], p.bits[w..]);
  }

  /** The first frame's stream, and the equal metrics it starts with. */
  ghost predicate IsFirstStream(y: seq<int>) {
    IsReceived(PUNCTURE_1_2, y, Path(0, FIRST))
  }

  const EQUAL: bias := seq(64, _ => 0)

  lemma FirstPath(y: seq<int>)
    requires IsFirstStream(y)
    ensures |FIRST| == 48 && 92 <= |y| && forall c | 0 <= c < 92 :: y[c] != 2
    ensures Agrees(y, Path(0, FIRST[..46])) && Received(y, 46) == 92
  {
    hide Encode, Received;
    EncodePrefix(0, FIRST, 46);
    forall c | 0 <= c < 92
      ensures y[c] == Encode(0, FIRST)[c]
    {
      assert Kept(PUNCTURE_1_2, c) by { assert PUNCTURE_1_2[c % 2] == 1; }
    }
    AllAreReceived(y, 46);
  }

  lemma {:induction false} AllAreReceived(y: seq<int>, k: nat)
    requires 2 * k <= |y| && forall c | 0 <= c < 2 * k :: y[c] != 2
    ensures Received(y, k) == 2 * k
  {
    if k != 0 { AllAreReceived(y, k - 1); }
  }

  /** It is in state 11 after 45 steps and in state 23 after 46. */
  lemma FirstStates()
    ensures Run(0, FIRST[..46]) == 23 && Run(0, FIRST[..45]) == 11 && FIRST[45] == 1
  {
    hide Run, Val;
    RunLastSix(0, FIRST[..46]);
    RunLastSix(0, FIRST[..45]);
    ValSix(FIRST[..46][40..]);
    ValSix(FIRST[..45][39..]);
  }

  /** After the first frame state 23 stands 92 high, every other state two lower at least, and state 21 three. */
  lemma FirstValues(y: seq<int>, t: state)
    requires IsFirstStream(y)
    ensures Value(EQUAL, Gains(y), 46, 23) == 92
    ensures t != 23 ==> Value(EQUAL, Gains(y), 46, t) <= 90
    ensures t == 21 ==> Value(EQUAL, Gains(y), 46, t) <= 89
  {
    hide Gained, Gains, Received, Value, Run, Agrees;
    var q := Path(0, FIRST[..46]);
    FirstPath(y);
    FirstStates();
    FullGainIsAgreement(y, q);
    ValueIsUpperBound(EQUAL, Gains(y), q);
    SurvivorIsShort(y, t);
    SurvivorIsShort(y, 23);
    var p := Survivor(EQUAL, Gains(y), 46, t);
    if t != 23 {
      EndsApart(y, p, q);
    }
    if t == 21 {
      IntoTwentyOne(y, p);
    }
  }

  lemma SurvivorIsShort(y: seq<int>, t: state)
    requires 92 <= |y| && Received(y, 46) == 92
    ensures var p := Survivor(EQUAL, Gains(y), 46, t);
            |p.bits| == 46 && p.End() == t && Value(EQUAL, Gains(y), 46, t) == 92 - Loss(y, p)
  {
    hide Gained, Gains, Received, Value, Run;
    SurvivorAttainsValue(EQUAL, Gains(y), 46, t);
  }

  /** A path into state 21 is off before its last step, and misses a symbol there as well. */
  lemma IntoTwentyOne(y: seq<int>, p: Path)
    requires IsFirstStream(y) && |p.bits| == 46 && p.End() == 21 && 92 <= |y|
    ensures Loss(y, p) >= 3
  {
    hide Run, Encode, Received, Gained, Gains, Agrees;
    var q := Path(0, FIRST[..46]);
    FirstPath(y);
    FirstStates();
    var r := Run(p.start, p.bits[..45]);
    assert p.End() == Next(r, p.bits[45]) by { RunStep(p.start, p.bits, 45); assert p.bits[..46] == p.bits; }
    assert p.bits[45] == 1 && (r == 10 || r == 42);
    LossSplits(y, p, 45);
    EncodePrefix(0, FIRST[..46], 45);
    assert FIRST[..46][..45] == FIRST[..45];
    HeadAgrees(y, q, 45);
    EndsApart(y, Head(p, 45), Head(q, 45));
    TailAgrees(y, q, 45);
    FirstMisses(y[90..], Tail(p, 45), Tail(q, 45));
    assert Head(Tail(p, 45), 1) == Tail(p, 45);
  }

  lemma HeadAgrees(y: seq<int>, q: Path, n: nat)
    requires n <= |q.bits| && 2 * |q.bits| <= |y| && Agrees(y, q)
    ensures Agrees(y, Head(q, n))
  {
    EncodePrefix(q.start, q.bits, n);
  }

  /** The metrics the first frame leaves: state 23 leads by two at least and is three high. */
  lemma FirstMetrics(y: seq<int>, m: seq<int>, t: state)
    requires IsFirstStream(y) && IsNormalised(EQUAL, Gains(y), 46, m)
    ensures |m| == 64 && m[23] >= 3 && (t != 23 ==> m[t] <= m[23] - 2)
  {
    hide Gains, Value;
    FirstValues(y, t);
    FirstValues(y, 21);
  }

  // ----- the second frame

  const SECOND: Path := Path(0, ZeroBits(108))

  lemma {:induction false} ZeroEncoding(k: nat)
    ensures Run(0, ZeroBits(k)) == 0
    ensures forall i | 0 <= i < 2 * k :: Encode(0, ZeroBits(k))[i] == 0
  {
    if k != 0 {
      ZeroEncoding(k - 1);
      assert ZeroBits(k)[..k - 1] == ZeroBits(k - 1);
    }
  }

  lemma {:induction false} OnesOfZeros(pat: pattern, k: nat, u: seq<bit>)
    requires forall j | 0 <= j < |u| :: u[j] == 0
    ensures Ones(pat, k, 0, u) == 0
    decreases |u|
  {
    if |u| != 0 { OnesOfZeros(pat, k + 1, u[1..]); }
  }

  lemma OnesOfFirst(pat: pattern, k: nat, x: state, u: seq<bit>, e: bit)
    requires |u| > 0 && u[0] == e
    ensures Ones(pat, k, x, u) == Toll(pat, k, x, e) + Ones(pat, k + 1, Next(x, e), u[1..])
  {
  }

  /** The detour 1, 1, 1 and then zeros from state 23 costs two symbols at rate 3/4 ... */
  lemma Detour(u: seq<bit>)
    requires |u| >= 9 && u[0] == u[1] == u[2] == 1 && forall j | 3 <= j < |u| :: u[j] == 0
    ensures Ones(PUNCTURE_3_4, 0, 23, u) == 2
  {
    hide Ones, Toll;
    DetourBegins();
    DetourGoesOn();
    DetourReturns();
    OnesOfFirst(PUNCTURE_3_4, 0, 23, u, 1);
    OnesOfFirst(PUNCTURE_3_4, 1, 47, u[1..], 1);
    OnesOfFirst(PUNCTURE_3_4, 2, 31, u[2..], 1);
    OnesOfFirst(PUNCTURE_3_4, 3, 63, u[3..], 0);
    OnesOfFirst(PUNCTURE_3_4, 4, 62, u[4..], 0);
    OnesOfFirst(PUNCTURE_3_4, 5, 60, u[5..], 0);
    OnesOfFirst(PUNCTURE_3_4, 6, 56, u[6..], 0);
    OnesOfFirst(PUNCTURE_3_4, 7, 48, u[7..], 0);
    OnesOfFirst(PUNCTURE_3_4, 8, 32, u[8..], 0);
    OnesOfZeros(PUNCTURE_3_4, 9, u[9..]);
  }

  lemma DetourBegins()
    ensures Toll(PUNCTURE_3_4, 0, 23, 1) == 0 && Toll(PUNCTURE_3_4, 1, 47, 1) == 0 && Toll(PUNCTURE_3_4, 2, 31, 1) == 0
  {
  }

  lemma DetourGoesOn()
    ensures Toll(PUNCTURE_3_4, 3, 63, 0) == 0 && Toll(PUNCTURE_3_4, 4, 62, 0) == 0 && Toll(PUNCTURE_3_4, 5, 60, 0) == 0
  {
  }

  lemma DetourReturns()
    ensures Toll(PUNCTURE_3_4, 6, 56, 0) == 1 && Toll(PUNCTURE_3_4, 7, 48, 0) == 0 && Toll(PUNCTURE_3_4, 8, 32, 0) == 1
  {
  }

  /** ... while any other inputs that begin with a zero cost three. */
  lemma StraightOn(u: seq<bit>)
    requires |u| >= 4 && u[0] == 0
    ensures Ones(PUNCTURE_3_4, 0, 23, u) >= 3
  {
    hide Ones, Toll;
    StraightBegins();
    StraightGoesOn();
    OnesOfFirst(PUNCTURE_3_4, 0, 23, u, 0);
    OnesOfFirst(PUNCTURE_3_4, 1, 46, u[1..], u[1]);
    if u[1] == 1 {
      OnesOfFirst(PUNCTURE_3_4, 2, 29, u[2..], u[2]);
      if u[2] == 0 {
        OnesOfFirst(PUNCTURE_3_4, 3, 58, u[3..], u[3]);
      }
    }
  }

  lemma StraightBegins()
    ensures Toll(PUNCTURE_3_4, 0, 23, 0) == 2
    ensures Toll(PUNCTURE_3_4, 1, 46, 0) == 1 && Toll(PUNCTURE_3_4, 1, 46, 1) == 0
  {
  }

  lemma StraightGoesOn()
    ensures Toll(PUNCTURE_3_4, 2, 29, 0) == 0 && Toll(PUNCTURE_3_4, 2, 29, 1) == 1
    ensures Toll(PUNCTURE_3_4, 3, 58, 0) == 1 && Toll(PUNCTURE_3_4, 3, 58, 1) == 1
  {
  }

  lemma DifferZero(x: state)
    ensures Differ(0, x) == x
  {
  }

  lemma DiffFromZeros(n: nat, p: Path)
    requires |p.bits| == n
    ensures Diff(Path(0, ZeroBits(n)), p) == p
  {
    DifferZero(p.start);
    assert Flips(ZeroBits(n), p.bits) == p.bits;
  }

  /** A path that starts elsewhere misses a symbol of an all-zero frame. */
  lemma StartsApart(p: Path)
    requires |p.bits| >= 16 && p.start != 0
    ensures Ones(PUNCTURE_3_4, 0, p.start, p.bits) >= 1
  {
    hide Kept, Loss, Ones, Diff;
    var n := |p.bits|;
    var sent := Path(0, ZeroBits(n));
    var y := seq(2 * n, c requires 0 <= c => if Kept(PUNCTURE_3_4, c) then 0 else 2);
    ZeroEncoding(n);
    assert IsReceived(PUNCTURE_3_4, y, sent);
    LossIsOnes(PUNCTURE_3_4, y, sent, p);
    DiffFromZeros(n, p);
    if Loss(y, p) == 0 {
      NoLossAgrees(y, p);
      PathIsUnique(PUNCTURE_3_4, y, p, sent);
      assert false;
    }
  }

  lemma NoLossAgrees(y: seq<int>, p: Path)
    requires 2 * |p.bits| <= |y| && Loss(y, p) == 0
    ensures Agrees(y, p)
  {
    hide Gained, Received, Agrees;
    FullGainIsAgreement(y, p);
  }

  /** What a path misses of an all-zero frame. */
  lemma LossOfZeros(y: seq<int>, p: Path)
    requires IsReceived(PUNCTURE_3_4, y, Path(0, ZeroBits(|p.bits|)))
    ensures Loss(y, p) == Ones(PUNCTURE_3_4, 0, p.start, p.bits)
  {
    hide Ones, Loss, Diff, IsReceived;
    LossIsOnes(PUNCTURE_3_4, y, Path(0, ZeroBits(|p.bits|)), p);
    DiffFromZeros(|p.bits|, p);
  }

  /** Of the paths from all states, those that flip the first bit lead. */
  lemma FlippingLeads(m: seq<int>, y: seq<int>, n: nat)
    requires |m| == 64 && m[23] >= 3 && forall t: state :: t != 23 ==> m[t] <= m[23] - 2
    requires n >= 16 && 2 * n <= |y| && IsReceived(PUNCTURE_3_4, y, Path(0, ZeroBits(n)))
    ensures !KeepsBit(InitialMetrics(m), PUNCTURE_3_4, y, Path(0, ZeroBits(n)), n, 0)
  {
    hide Ones, Lead, Diff, Loss, CostBehind, IsReceived, TieKeeps;
    var m0, sent := InitialMetrics(m), Path(0, ZeroBits(n));
    var r := Path(23, [1, 1, 1] + ZeroBits(n - 3));
    LossOfZeros(y, r);
    Detour(r.bits);
    LeadIsUpperBound(m0, PUNCTURE_3_4, y, sent, r, 0);
    var p := LeadIsAttained(m0, PUNCTURE_3_4, y, sent, n, 0, 0);
    LossOfZeros(y, p);
    assert p.start < 4 ==> m0[p.start] == 0;
    assert p.start >= 4 ==> m0[p.start] == m[p.start];
    if p.start == 23 {
      StraightOn(p.bits);
    } else if p.start >= 4 {
      StartsApart(p);
    }
  }

  lemma SecondPart()
    ensures |SECOND.bits| == 108 && SECOND.bits[0] == 0 && SentBy(SECOND, 86) == Path(0, ZeroBits(86))
  {
    assert SECOND.bits[..86] == ZeroBits(86);
  }

  lemma SettledByFirst(y: seq<int>, m: seq<int>)
    requires IsFirstStream(y) && IsNormalised(EQUAL, Gains(y), 46, m)
    ensures |m| == 64 && m[23] >= 3 && forall t: state :: t != 23 ==> m[t] <= m[23] - 2
  {
    hide IsFirstStream, IsNormalised, Gains;
    FirstMetrics(y, m, 0);
    forall t: state
      ensures t != 23 ==> m[t] <= m[23] - 2
    {
      FirstMetrics(y, m, t);
    }
  }

  /** The first bit of the second frame, a zero, is decoded as a one. */
  lemma SecondFrameMisread(y: seq<int>, m: seq<int>, y': seq<int>)
    requires IsFirstStream(y) && IsNormalised(EQUAL, Gains(y), 46, m)
    requires IsReceived(PUNCTURE_3_4, y', SECOND)
    ensures |m| == 64 && SECOND.bits[0] == 0 && DecodedBit(InitialMetrics(m), Gains(y'), 10, 0) == 1
  {
    assert 216 <= |y'|;
    hide Gains, IsNormalised, KeepsBit, Encode, Kept, DecodedBit, IsReceived;
    hide IsFirstStream, SentBy, InitialMetrics;
    SettledByFirst(y, m);
    SecondPart();
    PartIsReceived(PUNCTURE_3_4, y', SECOND, 86);
    FlippingLeads(m, y', 86);
    BitIsRight(PUNCTURE_3_4, 10, InitialMetrics(m), y', SECOND, 0);
  }

  lemma {:induction false} PuncturedZeros(p: pattern, y: seq<int>)
    requires forall c | 0 <= c < |y| :: y[c] == 0
    ensures forall c | 0 <= c < |Punctured(p, y)| :: Punctured(p, y)[c] == 0
  {
    if |y| != 0 { PuncturedZeros(p, y[..|y| - 1]); }
  }

  lemma SecondInput(x: seq<int>)
    requires |x| == 144 && forall c | 0 <= c < 144 :: x[c] == 0
    ensures x == Punctured(PUNCTURE_3_4, Encode(SECOND.start, SECOND.bits))
  {
    hide Punctured, Encode, Rank, Kept;
    ZeroEncoding(108);
    PuncturedZeros(PUNCTURE_3_4, Encode(0, ZeroBits(108)));
    RankDensity(PUNCTURE_3_4, 216);
    assert Excess(PUNCTURE_3_4, 216) == 0;
  }

  /**
   A fresh decoder is given the encoding of FIRST at rate 1/2, then the all-zero frame at rate 3/4, both from
   state 0 and without errors.  It delivers a one as the first bit of the second.
   */
  method MisreadFrame() returns (decoder: Decoder, first: array<byte>, second: array<byte>)
    ensures first[..] == Encode(0, FIRST)
    ensures second[..] == Punctured(PUNCTURE_3_4, Encode(SECOND.start, SECOND.bits))
    ensures decoder.Valid() && SECOND.bits[0] == 0 && decoder.decoded[0] == 1
  {
    hide Encode, Punctured, DecodedBit, Gains, IsNormalised, IsReceived, Kept, Rank;
    var code := Encode(0, FIRST);
    first := new byte[96];
    for c := 0 to 96
      invariant forall h | 0 <= h < c :: first[h] == code[h]
    {
      first[c] := code[c];
    }
    assert first[..] == code;
    NothingPunctured(code);
    decoder := new Decoder();
    assert InitialMetrics(decoder.metric0[..]) == EQUAL;
    DecodeReceived(decoder, BPSK_1_2, 48, 2, 8, first, PUNCTURE_1_2, 5, Path(0, FIRST));
    ghost var y, m := first[..], decoder.metric0[..];
    assert IsNormalised(EQUAL, Gains(y), 46, m);
    second := new byte[144](_ => 0);
    SecondInput(second[..]);
    assert 144 % 4 == 0;
    DecodeReceived(decoder, BPSK_3_4, 48, 3, 8, second, PUNCTURE_3_4, 10, SECOND);
    SecondFrameMisread(y, m, decoder.Stream(BPSK_3_4, second));
  }
}
