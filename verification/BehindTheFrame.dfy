/**
 A frame that asks for all its data bits: the loop reads symbols behind it, and what they hold decides how the last
 bits of the frame come out.
 */
module BehindTheFrame {
  import opened Bits
  import opened ConvolutionalCode
  import opened Trellis
  import opened Traceback
  import opened Puncturing
  import opened Decoding
  import opened ViterbiDecoder
  import opened RoundTrip
  import opened ErrorFreeFrames
  import opened TwoFrames

  /** 48 bits, the last of them a one, and zeros to flush it out. */
  const OTHER: seq<bit> := ZeroBits(47) + [1] + ZeroBits(38)

  /** The encoding of 48 zeros, followed by what the encoder would send next had the last bit been a one. */
  function Mixed(): (y: seq<bit>)
    ensures |y| == 172
  {
    Encode(0, ZeroBits(48)) + Encode(0, OTHER)[96..]
  }

  const ALL_ZEROS: seq<int> := seq(172, _ => 0)

  // ----- paths that start apart

  lemma FullyReceived(y: seq<int>, w: nat)
    requires 2 * w <= |y| && forall c | 0 <= c < |y| :: y[c] != 2
    ensures forall c | 0 <= c < |y[2 * w..]| :: y[2 * w..][c] != 2
  {
  }

  lemma UnlikeStartsLose(y: seq<int>, p: Path, q: Path)
    requires 16 <= |p.bits| == |q.bits| && 2 * |p.bits| <= |y|
    requires Agrees(y, q) && (forall c | 0 <= c < |y| :: y[c] != 2) && p.start != q.start
    ensures Loss(y, p) >= 1
  {
    hide Loss, Encode, Kept, Agrees;
    if Loss(y, p) == 0 {
      NoLossAgrees(y, p);
      PathIsUnique(PUNCTURE_1_2, y, p, q);
      assert false;
    }
  }

  /** Paths that join miss both symbols of the step that joins them. */
  lemma {:induction false} JoiningLosesTwo(y: seq<int>, p: Path, q: Path)
    requires |p.bits| == |q.bits| && 2 * |p.bits| <= |y|
    requires Agrees(y, q) && (forall c | 0 <= c < |y| :: y[c] != 2)
    requires p.start != q.start && p.End() == q.End()
    ensures Loss(y, p) >= 2
    decreases |p.bits|
  {
    hide Loss, Agrees, OutA, OutB, Run;
    if p.bits == [] {
      EmptyEnds(p, q);
    } else {
      LossSplits(y, p, 1);
      AfterOne(p);
      AfterOne(q);
      if Next(p.start, p.bits[0]) == Next(q.start, q.bits[0]) {
        FirstMisses(y, p, q);
        if p.start < 32 {
          OutputsFlip(p.start, p.bits[0]);
        } else {
          OutputsFlip(q.start, p.bits[0]);
        }
      } else {
        TailAgrees(y, q, 1);
        TailEnds(p, 1);
        TailEnds(q, 1);
        FullyReceived(y, 1);
        JoiningLosesTwo(y[2..], Tail(p, 1), Tail(q, 1));
      }
    }
  }

  lemma EmptyEnds(p: Path, q: Path)
    requires p.bits == [] == q.bits && p.End() == q.End()
    ensures p.start == q.start
  {
  }

  lemma AfterOne(p: Path)
    requires |p.bits| > 0
    ensures Tail(p, 1).start == Next(p.start, p.bits[0])
  {
    RunStep(p.start, p.bits, 0);
    assert p.bits[..0] == [];
  }

  /** Whether they join or not, paths that start apart miss two symbols. */
  lemma StartsApartLoseTwo(y: seq<int>, p: Path, q: Path)
    requires 33 <= |p.bits| == |q.bits| && 2 * |p.bits| <= |y|
    requires Agrees(y, q) && (forall c | 0 <= c < |y| :: y[c] != 2) && p.start != q.start
    ensures Loss(y, p) >= 2
  {
    hide Loss, Agrees, Run;
    LossSplits(y, p, 17);
    HeadAgrees(y, q, 17);
    UnlikeStartsLose(y, Head(p, 17), Head(q, 17));
    if Tail(p, 17).start != Tail(q, 17).start {
      TailAgrees(y, q, 17);
      FullyReceived(y, 17);
      UnlikeStartsLose(y[34..], Tail(p, 17), Tail(q, 17));
    } else {
      JoiningLosesTwo(y, Head(p, 17), Head(q, 17));
    }
  }

  // ----- the mixed stream

  lemma MixedParts()
    ensures Agrees(Mixed(), Path(0, ZeroBits(48)))
    ensures Mixed()[96..] == Encode(0, OTHER)[96..] && |OTHER| == 86
    ensures Agrees(Mixed()[96..], Tail(Path(0, OTHER), 48))
    ensures Tail(Path(0, OTHER), 48) == Path(1, ZeroBits(38))
    ensures forall c | 0 <= c < 172 :: Mixed()[c] != 2
  {
    hide Encode, Run;
    var v := Path(0, OTHER);
    assert Agrees(Encode(0, OTHER), v);
    TailAgrees(Encode(0, OTHER), v, 48);
    RunStep(0, OTHER, 47);
    assert OTHER[..47] == ZeroBits(47) && OTHER[48..] == ZeroBits(38);
    ZeroEncoding(47);
  }

  lemma AgreesNoLoss(y: seq<int>, p: Path)
    requires 2 * |p.bits| <= |y| && Agrees(y, p)
    ensures Loss(y, p) == 0
  {
    hide Gained, Received, Agrees;
    FullGainIsAgreement(y, p);
  }

  /** The path whose last frame bit is a one misses two symbols ... */
  lemma OtherLosesTwo()
    ensures Loss(Mixed(), Path(0, OTHER)) <= 2
  {
    hide Loss, Run, Encode, Agrees, Mixed, Misses;
    var y, v := Mixed(), Path(0, OTHER);
    MixedParts();
    LossSplits(y, v, 48);
    AgreesNoLoss(y[96..], Tail(v, 48));
    LossSplits(y, Head(v, 48), 47);
    HeadAgrees(y, Path(0, ZeroBits(48)), 47);
    assert Head(Head(v, 48), 47) == Path(0, ZeroBits(47)) == Head(Path(0, ZeroBits(48)), 47);
    AgreesNoLoss(y, Path(0, ZeroBits(47)));
    var t := Tail(Head(v, 48), 47);
    assert t.bits == [1];
    OneStepLoss(y[94..], t.start, 1);
    TwoAtMost(y[94], y[95], t.start, 1);
  }

  lemma TwoAtMost(a: int, b: int, q: state, e: bit)
    ensures Misses(a, b, q, e) <= 2
  {
  }

  /** ... and every path whose last frame bit is a zero misses three. */
  lemma ZeroLosesThree(p: Path)
    requires |p.bits| == 86 && p.bits[47] == 0
    ensures Loss(Mixed(), p) >= 3
  {
    hide Loss, Run, Encode, Agrees, Mixed;
    var y, z := Mixed(), Path(0, ZeroBits(48));
    MixedParts();
    LossSplits(y, p, 48);
    LossSplits(y, Head(p, 48), 47);
    assert Head(Head(p, 48), 47) == Head(p, 47);
    var s := Run(p.start, p.bits[..47]);
    RunStep(p.start, p.bits, 47);
    assert Tail(p, 48).start == Next(s, 0) != 1;
    FullyReceived(y, 48);
    UnlikeStartsLose(y[96..], Tail(p, 48), Path(1, ZeroBits(38)));
    if s == 0 {
      FromZero(y[96..], Tail(p, 48));
    } else {
      HeadAgrees(y, z, 47);
      assert Head(z, 47) == Path(0, ZeroBits(47));
      ZeroEncoding(47);
      EndsApart(y, Head(p, 47), Head(z, 47));
    }
  }

  /** A path that goes on from state zero, where the stream goes on from state one. */
  lemma FromZero(y: seq<int>, p: Path)
    requires |p.bits| == 38 && p.start == 0 && |y| == 76 && Agrees(y, Path(1, ZeroBits(38)))
    requires forall c | 0 <= c < |y| :: y[c] != 2
    ensures Loss(y, p) >= 3
  {
    hide Loss, Run, Encode, Agrees;
    var q := Path(1, ZeroBits(38));
    LossSplits(y, p, 1);
    FirstMisses(y, p, q);
    AfterOne(p);
    AfterOne(q);
    TailAgrees(y, q, 1);
    FullyReceived(y, 1);
    StartsApartLoseTwo(y[2..], Tail(p, 1), Tail(q, 1));
  }

  /** Behind zeros the last bit of the frame is a zero, behind the other continuation it is a one. */
  lemma LastBitDepends()
    ensures DecodedBit(EQUAL, Gains(ALL_ZEROS), 5, 47) == 0
    ensures DecodedBit(EQUAL, Gains(Mixed()), 5, 47) == 1
  {
    hide Gains, Encode, Mixed, Loss, Kept, Chosen;
    ZeroEncoding(86);
    assert IsReceived(PUNCTURE_1_2, ALL_ZEROS, Path(0, ZeroBits(86))) by { AllKept(172); }
    DecodesWhatWasSent(PUNCTURE_1_2, 5, EQUAL, ALL_ZEROS, Path(0, ZeroBits(86)), 0, 47);
    var c := Chosen(EQUAL, Gains(Mixed()), 10);
    OtherLosesTwo();
    ChosenLength(EQUAL, Gains(Mixed()), 10);
    ChosenStandsBest(EQUAL, Mixed(), 10, Path(0, OTHER));
    if c.bits[47] == 0 {
      ZeroLosesThree(c);
      assert false;
    }
  }

  lemma AllKept(n: nat)
    ensures forall c | 0 <= c < n :: Kept(PUNCTURE_1_2, c)
  {
    forall c | 0 <= c < n
      ensures Kept(PUNCTURE_1_2, c)
    {
      assert PUNCTURE_1_2[c % 2] == 1;
    }
  }

  /**
   Two inputs that hold the same error-free frame of 48 zero bits and differ only behind it.  From a fresh decoder
   the last bit of the frame comes out as a zero for the one and as a one for the other.
   */
  method SameFrameTwice() returns (first: array<byte>, second: array<byte>, a: byte, b: byte)
    ensures first.Length == second.Length == 172
    ensures first[..96] == second[..96] == Encode(0, ZeroBits(48))
    ensures a == 0 && b == 1
  {
    hide Encode, DecodedBit, Gains, IsNormalised, Kept;
    ZeroEncoding(48);
    second := new byte[172];
    var mixed := Mixed();
    for c := 0 to 172
      invariant forall h | 0 <= h < c :: second[h] == mixed[h]
    {
      second[c] := mixed[c];
    }
    assert |mixed| == |second[..]| && forall h | 0 <= h < 172 :: second[..][h] == mixed[h];
    assert second[..] == mixed;
    first := new byte[172](_ => 0);
    assert first[..] == ALL_ZEROS;
    assert first[..96] == Encode(0, ZeroBits(48));
    LastBitDepends();
    a := LastBitOf(first);
    b := LastBitOf(second);
  }

  /** Bit 47 of a frame of 48 bits at rate 1/2, decoded by a fresh decoder. */
  method LastBitOf(input: array<byte>) returns (r: byte)
    requires input.Length == 172 && forall c | 0 <= c < 172 :: input[c] < 2
    ensures r == DecodedBit(EQUAL, Gains(input[..]), 5, 47)
  {
    hide DecodedBit, Gains, IsNormalised, Kept;
    var decoder := new Decoder();
    assert InitialMetrics(decoder.metric0[..]) == EQUAL;
    decoder.Decode(BPSK_1_2, 48, 2, 48, input);
    r := decoder.decoded[47];
  }
}
