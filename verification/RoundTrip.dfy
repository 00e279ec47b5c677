/**
 Error-free decoding: when the kept symbols are those the encoder sent, no other path agrees
 with all of them, and the decoder returns the encoder's input.
 */
module RoundTrip {
  import opened Bits
  import opened ConvolutionalCode
  import opened Linearity
  import opened Trellis
  import opened Traceback
  import opened Butterfly
  import opened Puncturing
  import opened Decoding
  import opened ViterbiDecoder

  // ----- paths that agree with every received symbol

  /** The path reproduces every symbol of the first |p.bits| pairs that is not erased. */
  ghost predicate Agrees(y: seq<int>, p: Path)
    requires 2 * |p.bits| <= |y|
  {
    forall i | 0 <= i < 2 * |p.bits| :: y[i] == 2 || y[i] == Encode(p.start, p.bits)[i]
  }

  /** The number of symbols that are not erased among the first k pairs. */
  function Received(y: seq<int>, k: nat): nat
    requires 2 * k <= |y|
  {
    if k == 0 then 0
    else Received(y, k - 1) + (if y[2 * k - 2] == 2 then 0 else 1) + (if y[2 * k - 1] == 2 then 0 else 1)
  }

  /** A path gains one for every received symbol at best, and does so exactly when it agrees with all of them. */
  lemma {:induction false} FullGainIsAgreement(y: seq<int>, p: Path)
    requires 2 * |p.bits| <= |y|
    ensures Gained(Gains(y), p.start, p.bits) <= Received(y, |p.bits|)
    ensures Gained(Gains(y), p.start, p.bits) == Received(y, |p.bits|) <==> Agrees(y, p)
    decreases |p.bits|
  {
    hide OutA, OutB;
    if |p.bits| != 0 {
      var n := |p.bits| - 1;
      var p' := Path(p.start, p.bits[..n]);
      FullGainIsAgreement(y, p');
      var q := Run(p.start, p'.bits);
      assert Encode(p.start, p.bits) == Encode(p.start, p'.bits) + [OutA(q, p.bits[n]), OutB(q, p.bits[n])];
      var last := (y[2 * n] == 2 || y[2 * n] == OutA(q, p.bits[n]))
                  && (y[2 * n + 1] == 2 || y[2 * n + 1] == OutB(q, p.bits[n]));
      assert Agrees(y, p) <==> (Agrees(y, p') && last);
    }
  }

  // ----- uniqueness

  function Xor5(a: bool, b: bool, c: bool, d: bool, e: bool): bool {
    ((a != b) != (c != d)) != e
  }

  /** The positions at which two streams differ. */
  function Difference(e: seq<bit>, f: seq<bit>): (d: seq<bool>)
    requires |e| == |f|
    ensures |d| == |e|
    ensures forall i | 0 <= i < |e| :: d[i] == (e[i] != f[i])
  {
    seq(|e|, i requires 0 <= i < |e| => e[i] != f[i])
  }

  /** The difference changes the first, or the second, output of step i. */
  predicate ShowsA(d: seq<bool>, i: nat)
    requires i + 6 < |d|
  {
    Xor5(d[i + 6], d[i + 4], d[i + 3], d[i + 1], d[i])
  }

  predicate ShowsB(d: seq<bool>, i: nat)
    requires i + 6 < |d|
  {
    Xor5(d[i + 6], d[i + 5], d[i + 4], d[i + 3], d[i])
  }

  /** The difference d produces no output difference at any kept position before step k. */
  ghost predicate Invisible(p: pattern, d: seq<bool>, k: nat)
    requires |d| == 6 + k
  {
    forall i | 0 <= i < k :: (Kept(p, 2 * i) ==> !ShowsA(d, i)) && (Kept(p, 2 * i + 1) ==> !ShowsB(d, i))
  }

  /** Sixteen steps at rate 3/4 reveal any difference of the start states. */
  lemma ThreeQuartersObservable(d: seq<bool>)
    requires |d| >= 22
    requires !ShowsA(d, 0) && !ShowsB(d, 0) && !ShowsA(d, 1) && !ShowsB(d, 2) && !ShowsA(d, 3) && !ShowsB(d, 3)
    requires !ShowsA(d, 4) && !ShowsB(d, 5) && !ShowsA(d, 6) && !ShowsB(d, 6) && !ShowsA(d, 7) && !ShowsB(d, 8)
    requires !ShowsA(d, 9) && !ShowsB(d, 9) && !ShowsA(d, 10) && !ShowsB(d, 11) && !ShowsA(d, 12) && !ShowsB(d, 12)
    requires !ShowsA(d, 13) && !ShowsB(d, 14) && !ShowsA(d, 15) && !ShowsB(d, 15)
    ensures !d[0] && !d[1] && !d[2] && !d[3] && !d[4] && !d[5]
  {
  }

  /** Eleven steps at rate 2/3 reveal any difference of the start states. */
  lemma TwoThirdsObservable(d: seq<bool>)
    requires |d| >= 17
    requires !ShowsA(d, 0) && !ShowsB(d, 0) && !ShowsA(d, 1) && !ShowsA(d, 2) && !ShowsB(d, 2) && !ShowsA(d, 3)
    requires !ShowsA(d, 4) && !ShowsB(d, 4) && !ShowsA(d, 5) && !ShowsA(d, 6) && !ShowsB(d, 6) && !ShowsA(d, 7)
    requires !ShowsA(d, 8) && !ShowsB(d, 8) && !ShowsA(d, 9) && !ShowsA(d, 10) && !ShowsB(d, 10)
    ensures !d[0] && !d[1] && !d[2] && !d[3] && !d[4] && !d[5]
  {
  }

  /** A difference that stays invisible for sixteen steps starts from equal states. */
  lemma InvisibleHeadIsZero(p: pattern, d: seq<bool>, k: nat)
    requires 16 <= k && |d| == 6 + k && Invisible(p, d, k)
    ensures forall i | 0 <= i < 6 :: !d[i]
  {
    hide ShowsA, ShowsB, Kept;
    KeptPositions(p);
    if |p| == 6 {
      assert forall i | 0 <= i < 16 :: (i % 3 != 2 ==> !ShowsA(d, i)) && (i % 3 != 1 ==> !ShowsB(d, i));
      ThreeQuartersObservable(d);
    } else {
      assert forall i | 0 <= i < 16 :: !ShowsA(d, i) && (i % 2 == 0 ==> !ShowsB(d, i));
      TwoThirdsObservable(d);
    }
  }

  /** The kept positions the observability lemmas use. */
  lemma KeptPositions(p: pattern)
    ensures |p| == 6 ==> forall i | 0 <= i < 16 ::
                           && (i % 3 != 2 ==> Kept(p, 2 * i)) && (i % 3 != 1 ==> Kept(p, 2 * i + 1))
    ensures |p| != 6 ==> forall i | 0 <= i < 16 :: Kept(p, 2 * i) && (i % 2 == 0 ==> Kept(p, 2 * i + 1))
  {
    if |p| == 6 {
      forall i | 0 <= i < 16
        ensures (i % 3 != 2 ==> Kept(p, 2 * i)) && (i % 3 != 1 ==> Kept(p, 2 * i + 1))
      {
        assert (2 * i) % 6 == 2 * (i % 3) && (2 * i + 1) % 6 == 2 * (i % 3) + 1;
      }
    } else {
      forall i | 0 <= i < 16
        ensures Kept(p, 2 * i) && (i % 2 == 0 ==> Kept(p, 2 * i + 1))
      {
        assert |p| == 2 || |p| == 4;
        assert (2 * i) % 4 == 2 * (i % 2) && (2 * i + 1) % 4 == 2 * (i % 2) + 1;
        assert (2 * i) % 2 == 0 && (2 * i + 1) % 2 == 1;
      }
    }
  }

  /** From equal states on, every further input difference would show in the kept symbol of its step. */
  lemma {:induction false} InvisibleIsZero(p: pattern, d: seq<bool>, k: nat, j: nat)
    requires 16 <= k && |d| == 6 + k && Invisible(p, d, k) && j <= |d|
    ensures forall i | 0 <= i < j :: !d[i]
  {
    if j <= 6 {
      InvisibleHeadIsZero(p, d, k);
    } else {
      hide Kept;
      InvisibleIsZero(p, d, k, j - 1);
      var i := j - 7;
      PairNotErased(p, i);
      assert !ShowsA(d, i) || !ShowsB(d, i);
    }
  }

  lemma PathsFromStreams(p: Path, q: Path)
    requires |p.bits| == |q.bits| && Stream(p) == Stream(q)
    ensures p == q
  {
    assert p.bits == Stream(p)[6..] == Stream(q)[6..] == q.bits;
    assert LowBits(p.start, 6) == Stream(p)[..6] == Stream(q)[..6] == LowBits(q.start, 6);
    ShlByte(0);
    assert Pow2(6) == 64 by { assert Pow2(3) == 8; }
  }

  /** No two paths of sixteen steps or more send the same symbols at all kept positions. */
  lemma PathIsUnique(pat: pattern, y: seq<int>, p: Path, q: Path)
    requires 16 <= |p.bits| == |q.bits| && 2 * |p.bits| <= |y|
    requires Agrees(y, p) && Agrees(y, q)
    requires forall c | 0 <= c < 2 * |p.bits| && Kept(pat, c) :: y[c] != 2
    ensures p == q
  {
    hide Kept, Encode, Plus, Stream, ShowsA, ShowsB;
    var k := |p.bits|;
    var e, f := Stream(p), Stream(q);
    var d := Difference(e, f);
    forall i | 0 <= i < k
      ensures Kept(pat, 2 * i) ==> !ShowsA(d, i)
      ensures Kept(pat, 2 * i + 1) ==> !ShowsB(d, i)
    {
      SameOutputs(p, q, i);
    }
    InvisibleIsZero(pat, d, k, |d|);
    assert e == f;
    PathsFromStreams(p, q);
  }

  /** Outputs that coincide at step i do not show the difference of the streams. */
  lemma SameOutputs(p: Path, q: Path, i: nat)
    requires i < |p.bits| == |q.bits|
    ensures var d := Difference(Stream(p), Stream(q));
            && (Encode(p.start, p.bits)[2 * i] == Encode(q.start, q.bits)[2 * i] ==> !ShowsA(d, i))
            && (Encode(p.start, p.bits)[2 * i + 1] == Encode(q.start, q.bits)[2 * i + 1] ==> !ShowsB(d, i))
  {
    hide Encode, Stream, Plus, Xor5;
    var e, f := Stream(p), Stream(q);
    EncodeIsSlidingSum(p, i);
    EncodeIsSlidingSum(q, i);
    if Encode(p.start, p.bits)[2 * i] == Encode(q.start, q.bits)[2 * i] {
      EqualSums(e[i + 6], e[i + 4], e[i + 3], e[i + 1], e[i], f[i + 6], f[i + 4], f[i + 3], f[i + 1], f[i]);
    }
    if Encode(p.start, p.bits)[2 * i + 1] == Encode(q.start, q.bits)[2 * i + 1] {
      EqualSums(e[i + 6], e[i + 5], e[i + 4], e[i + 3], e[i], f[i + 6], f[i + 5], f[i + 4], f[i + 3], f[i]);
    }
  }

  lemma EqualSums(a: bit, b: bit, c: bit, d: bit, e: bit, a': bit, b': bit, c': bit, d': bit, e': bit)
    requires Plus(a, Plus(b, Plus(c, Plus(d, e)))) == Plus(a', Plus(b', Plus(c', Plus(d', e'))))
    ensures !Xor5(a != a', b != b', c != c', d != d', e != e')
  {
  }

  // ----- losses

  /** How many received symbols a path misses. */
  function Loss(y: seq<int>, p: Path): (l: nat)
    requires 2 * |p.bits| <= |y|
  {
    FullGainIsAgreement(y, p);
    Received(y, |p.bits|) - Gained(Gains(y), p.start, p.bits)
  }

  /** The part of a path from step w on. */
  function Tail(p: Path, w: nat): Path
    requires w <= |p.bits|
  {
    Path(Run(p.start, p.bits[..w]), p.bits[w..])
  }

  function Head(p: Path, w: nat): Path
    requires w <= |p.bits|
  {
    Path(p.start, p.bits[..w])
  }

  lemma StateOfTail(p: Path, w: nat, n: nat)
    requires w <= n <= |p.bits|
    ensures Tail(Head(p, n), w) == Head(Tail(p, w), n - w)
    ensures Tail(p, w).bits[..n - w] == Tail(Head(p, n), w).bits
    ensures Run(Tail(p, w).start, Tail(p, w).bits[..n - w]) == Run(p.start, p.bits[..n])
  {
    hide Run;
    assert p.bits[..n] == p.bits[..w] + p.bits[w..n];
    RunAppend(p.start, p.bits[..w], p.bits[w..n]);
    assert p.bits[..n][..w] == p.bits[..w] && p.bits[..n][w..] == p.bits[w..n] == p.bits[w..][..n - w];
  }

  lemma GainsOfTail(y: seq<int>, w: nat, n: nat, s: state, x: bit)
    requires w <= n && 2 * n + 2 <= |y|
    ensures Gains(y[2 * w..])(n - w, s, x) == Gains(y)(n, s, x)
  {
    hide PairGain;
    assert y[2 * w..][2 * (n - w)] == y[2 * n] && y[2 * w..][2 * (n - w) + 1] == y[2 * n + 1];
  }

  /** Gains add up along a path. */
  lemma {:induction false} GainedSplits(y: seq<int>, p: Path, w: nat)
    requires w <= |p.bits| && 2 * |p.bits| <= |y|
    ensures Gained(Gains(y), p.start, p.bits)
         == Gained(Gains(y), p.start, p.bits[..w]) + Gained(Gains(y[2 * w..]), Tail(p, w).start, p.bits[w..])
    decreases |p.bits|
  {
    hide Gains, Run, Gained;
    if w == |p.bits| {
      assert p.bits[..w] == p.bits;
      NothingGained(Gains(y[2 * w..]), Tail(p, w).start, p.bits[w..]);
    } else {
      var n, t := |p.bits| - 1, Tail(p, w);
      GainedSplits(y, Head(p, n), w);
      StateOfTail(p, w, n);
      GainsOfTail(y, w, n, Run(p.start, p.bits[..n]), p.bits[n]);
      assert p.bits[..n][..w] == p.bits[..w];
      GainedOneMore(Gains(y), p.start, p.bits);
      GainedOneMore(Gains(y[2 * w..]), t.start, t.bits);
    }
  }

  lemma NothingGained(g: gain, s: state, u: seq<bit>)
    requires |u| == 0
    ensures Gained(g, s, u) == 0
  {
  }

  lemma GainedOneMore(g: gain, s: state, u: seq<bit>)
    requires |u| > 0
    ensures var n := |u| - 1; Gained(g, s, u) == Gained(g, s, u[..n]) + g(n, Run(s, u[..n]), u[n])
  {
  }

  lemma {:induction false} ReceivedSplits(y: seq<int>, w: nat, k: nat)
    requires w <= k && 2 * k <= |y|
    ensures Received(y, k) == Received(y, w) + Received(y[2 * w..], k - w)
  {
    if w < k {
      ReceivedSplits(y, w, k - 1);
      assert y[2 * w..][2 * (k - w) - 2] == y[2 * k - 2] && y[2 * w..][2 * (k - w) - 1] == y[2 * k - 1];
    }
  }

  lemma LossSplits(y: seq<int>, p: Path, w: nat)
    requires w <= |p.bits| && 2 * |p.bits| <= |y|
    ensures Loss(y, p) == Loss(y, Head(p, w)) + Loss(y[2 * w..], Tail(p, w))
  {
    hide Gained, Received;
    GainedSplits(y, p, w);
    ReceivedSplits(y, w, |p.bits|);
  }

  /** No path from the same start misses fewer symbols. */
  ghost predicate Unbeaten(y: seq<int>, p: Path)
    requires 2 * |p.bits| <= |y|
  {
    forall q: Path | q.start == p.start && |q.bits| == |p.bits| :: Loss(y, p) <= Loss(y, q)
  }

  /** Tails of unbeaten paths are unbeaten. */
  lemma TailIsUnbeaten(y: seq<int>, p: Path, w: nat)
    requires w <= |p.bits| && 2 * |p.bits| <= |y| && Unbeaten(y, p)
    ensures Unbeaten(y[2 * w..], Tail(p, w))
  {
    hide Loss;
    LossSplits(y, p, w);
    var t := Tail(p, w);
    forall q: Path | q.start == t.start && |q.bits| == |t.bits|
      ensures Loss(y[2 * w..], t) <= Loss(y[2 * w..], q)
    {
      var r := Path(p.start, p.bits[..w] + q.bits);
      assert r.bits[..w] == p.bits[..w] && r.bits[w..] == q.bits;
      assert Head(r, w) == Head(p, w) && Tail(r, w) == q;
      LossSplits(y, r, w);
    }
  }

  // ----- the round trip

  /** In the first k pairs, every symbol the pattern keeps was received. */
  ghost predicate AllReceived(pat: pattern, y: seq<int>, k: nat)
    requires 2 * k <= |y|
  {
    forall c | 0 <= c < 2 * k && Kept(pat, c) :: y[c] != 2
  }

  /** Thirty-six symbols are whole periods of every pattern. */
  lemma DropPeriods(pat: pattern, y: seq<int>, k: nat)
    requires 18 <= k && 2 * k <= |y| && AllReceived(pat, y, k)
    ensures AllReceived(pat, y[36..], k - 18)
  {
    forall c | 0 <= c < 2 * k - 36 && Kept(pat, c)
      ensures y[36..][c] != 2
    {
      assert |pat| == 2 || |pat| == 4 || |pat| == 6;
      assert (c + 36) % |pat| == c % |pat|;
      assert Kept(pat, c + 36);
    }
  }

  lemma TailAgrees(y: seq<int>, q: Path, w: nat)
    requires w <= |q.bits| && 2 * |q.bits| <= |y| && Agrees(y, q)
    ensures Agrees(y[2 * w..], Tail(q, w))
  {
    hide Gained, Received, Agrees;
    LossSplits(y, q, w);
    FullGainIsAgreement(y, q);
    FullGainIsAgreement(y[2 * w..], Tail(q, w));
  }

  /** Two paths that start in different states differ in some received symbol of their first eighteen steps. */
  lemma FirstBlockLoses(pat: pattern, y: seq<int>, p: Path, q: Path)
    requires 18 <= |p.bits| == |q.bits| && 2 * |p.bits| <= |y|
    requires Agrees(y, q) && AllReceived(pat, y, |p.bits|) && p.start != q.start
    ensures Loss(y, Head(p, 18)) >= 1
  {
    hide Gained, Received, Kept, Encode;
    FullGainIsAgreement(y, Head(p, 18));
    EncodePrefix(q.start, q.bits, 18);
    assert Agrees(y, Head(q, 18));
    if Agrees(y, Head(p, 18)) {
      PathIsUnique(pat, y, Head(p, 18), Head(q, 18));
    }
  }

  lemma UnbeatenFromSameStart(pat: pattern, y: seq<int>, p: Path, q: Path)
    requires 16 <= |p.bits| == |q.bits| && 2 * |p.bits| <= |y|
    requires Agrees(y, q) && AllReceived(pat, y, |p.bits|)
    requires Loss(y, p) == 0 || (p.start == q.start && Unbeaten(y, p))
    ensures p == q
  {
    hide Gained, Received, Agrees;
    FullGainIsAgreement(y, p);
    FullGainIsAgreement(y, q);
    PathIsUnique(pat, y, p, q);
  }

  /**
   An unbeaten path that misses at most the given number of symbols joins the path that was sent
   within eighteen steps for each of them, and stays on it.
   */
  lemma {:induction false} UnbeatenJoinsSent(pat: pattern, y: seq<int>, p: Path, q: Path, misses: nat)
    requires 18 * misses + 16 <= |p.bits| == |q.bits| && 2 * |p.bits| <= |y|
    requires Agrees(y, q) && AllReceived(pat, y, |p.bits|)
    requires Unbeaten(y, p) && Loss(y, p) <= misses
    ensures p.bits[18 * misses..] == q.bits[18 * misses..]
    decreases misses
  {
    hide Loss, Agrees, AllReceived, Unbeaten, Run;
    if p.start == q.start || misses == 0 {
      UnbeatenFromSameStart(pat, y, p, q);
    } else {
      FirstBlockLoses(pat, y, p, q);
      LossSplits(y, p, 18);
      TailIsUnbeaten(y, p, 18);
      TailAgrees(y, q, 18);
      DropPeriods(pat, y, |p.bits|);
      UnbeatenJoinsSent(pat, y[36..], Tail(p, 18), Tail(q, 18), misses - 1);
      var j := 18 * (misses - 1);
      assert p.bits[18..][j..] == p.bits[18 * misses..] && q.bits[18..][j..] == q.bits[18 * misses..];
    }
  }

  /** The path the decoder commits to is unbeaten, and misses no more symbols than the bias is spread. */
  lemma ChosenIsUnbeaten(m0: bias, y: seq<int>, q: Path, c: nat, spread: nat)
    requires forall s: state, t: state :: m0[s] - m0[t] <= spread
    requires |q.bits| == StoreTime(c) && 2 * StoreTime(c) <= |y| && Agrees(y, q)
    ensures |Chosen(m0, Gains(y), c).bits| == StoreTime(c)
    ensures Unbeaten(y, Chosen(m0, Gains(y), c)) && Loss(y, Chosen(m0, Gains(y), c)) <= spread
  {
    hide Gained, Gains, Received, Agrees, Chosen;
    var p := Chosen(m0, Gains(y), c);
    ChosenIsOptimal(m0, Gains(y), c);
    FullGainIsAgreement(y, q);
    assert Weight(m0, Gains(y), q) <= Weight(m0, Gains(y), p);
    forall r: Path | r.start == p.start && |r.bits| == |p.bits|
      ensures Loss(y, p) <= Loss(y, r)
    {
      assert Weight(m0, Gains(y), r) <= Weight(m0, Gains(y), p);
    }
  }

  lemma ChosenBitIsSent(pat: pattern, m0: bias, y: seq<int>, sent: Path, d: nat, i: nat, spread: nat)
    requires forall s: state, t: state :: m0[s] - m0[t] <= spread
    requires 5 <= d && 18 * spread <= i && StoreTime(i / 8 + d) <= |sent.bits| && 2 * |sent.bits| <= |y|
    requires Agrees(y, sent) && AllReceived(pat, y, |sent.bits|)
    ensures DecodedBit(m0, Gains(y), d, i) == sent.bits[i]
  {
    hide Chosen, Gains, Encode, Kept, Unbeaten, Loss;
    var c := i / 8 + d;
    var p, q := Chosen(m0, Gains(y), c), Head(sent, StoreTime(c));
    EncodePrefix(sent.start, sent.bits, StoreTime(c));
    assert Agrees(y, q);
    ChosenIsUnbeaten(m0, y, q, c, spread);
    UnbeatenJoinsSent(pat, y, p, q, spread);
    assert p.bits[18 * spread..][i - 18 * spread] == q.bits[18 * spread..][i - 18 * spread];
  }

  /** At the kept positions the stream holds what the encoder sends along the path; the others are erased. */
  ghost predicate IsReceived(pat: pattern, y: seq<int>, sent: Path) {
    && 2 * |sent.bits| <= |y|
    && forall c | 0 <= c < 2 * |sent.bits| :: y[c] == if Kept(pat, c) then Encode(sent.start, sent.bits)[c] else 2
  }

  /**
   Error-free decoding at every rate and with every traceback depth from five on.  If the received symbols are
   the kept part of an encoding up to the store that decides bit i, and i is at least 18 times the spread of the
   initial metrics, bit i is the encoded bit: any bit when the metrics start out equal, as in a decoder's first
   frame, and any bit from 216 on in a later frame.
   */
  lemma DecodesWhatWasSent(pat: pattern, d: nat, m0: bias, y: seq<int>, sent: Path, spread: nat, i: nat)
    requires forall s: state, t: state :: m0[s] - m0[t] <= spread
    requires 5 <= d && StoreTime(i / 8 + d) <= |sent.bits| && IsReceived(pat, y, sent)
    requires 18 * spread <= i
    ensures i < |sent.bits| && DecodedBit(m0, Gains(y), d, i) == sent.bits[i]
  {
    hide Chosen, Gains, Encode, Kept, DecodedBit;
    ChosenBitIsSent(pat, m0, y, sent, d, i, spread);
  }

  lemma {:induction false} NothingPunctured(y: seq<int>)
    ensures Punctured(PUNCTURE_1_2, y) == y && Rank(PUNCTURE_1_2, |y|) == |y|
  {
    if |y| != 0 {
      NothingPunctured(y[..|y| - 1]);
      assert PUNCTURE_1_2[(|y| - 1) % 2] == 1;
    }
  }

  lemma WholeIsDepunctured(y: seq<int>)
    ensures IsDepunctured(PUNCTURE_1_2, y, y)
  {
    NothingPunctured(y);
    forall c | 0 <= c < |y|
      ensures Kept(PUNCTURE_1_2, c) && Rank(PUNCTURE_1_2, c) == c
    {
      NothingPunctured(y[..c]);
      assert PUNCTURE_1_2[c % 2] == 1;
    }
  }

  lemma DepuncturedPrefix(p: pattern, x: seq<int>, y: seq<int>, n: nat)
    requires n <= |y| && IsDepunctured(p, x, y)
    ensures IsDepunctured(p, x, y[..n])
  {
    RankGrows(p, n, |y|);
    hide Kept, Rank;
  }

  /** A depunctured stream that stops at a kept position is at least as long as what was punctured. */
  lemma DepuncturedIsLongEnough(p: pattern, x: seq<int>, y: seq<int>, count: nat, n: nat)
    requires count <= |y| && Rank(p, count) == |x| == Rank(p, n) && Kept(p, count)
    requires IsDepunctured(p, x, y[..count])
    ensures n <= count && IsDepunctured(p, x, y[..n])
  {
    hide IsDepunctured, Kept;
    if count < n {
      RankGrows(p, count + 1, n);
      assert false;
    }
    DepuncturedPrefix(p, x, y[..count], n);
    assert y[..count][..n] == y[..n];
  }

  /**
   The round trip through the decoder object, for an encoding of any length as input: every bit from 18 times the
   bound of the metrics on is the encoded bit, as long as the store that decides it comes within the encoding.
   The bits behind that depend on what the input holds behind the encoding.  Pattern and traceback depth are those
   of the encoding's rate.
   */
  method DecodeSent(decoder: Decoder, e: Encoding, nCbps: nat, nSym: nat, nDataBits: nat, input: array<byte>,
                    ghost pat: pattern, ghost depth: nat, ghost sent: Path, ghost spread: nat)
    requires decoder.Valid() && input !in decoder.Repr() && AtMost(decoder.metric0, spread)
    requires nDataBits <= decoder.decoded.Length / 8 * 8
    requires match e
             case BPSK_1_2 | QPSK_1_2 | QAM16_1_2 => pat == [1, 1] && depth == 5
             case QAM64_2_3 => pat == [1, 1, 1, 0] && depth == 9
             case BPSK_3_4 | QPSK_3_4 | QAM16_3_4 | QAM64_3_4 => pat == [1, 1, 1, 0, 0, 1] && depth == 10
    requires SymbolsRead(nDataBits, depth) <= if depth == 5 then input.Length else MAX_ENCODED_BITS
    requires nSym * nCbps <= input.Length && forall c | 0 <= c < input.Length :: input[c] < 2
    requires input[..nSym * nCbps] == Punctured(pat, Encode(sent.start, sent.bits))
    requires depth == 10 ==> decoder.NoStaleErasure(nSym * nCbps)
    requires depth != 5 ==> PositionOf(pat, nSym * nCbps) <= MAX_ENCODED_BITS
    modifies decoder.Repr()
    ensures decoder.Valid()
    ensures forall i | 18 * spread <= i < nDataBits && 8 * (i / 8 + depth) + 6 <= |sent.bits| ::
              i < |sent.bits| && decoder.decoded[i] == sent.bits[i]
  {
    hide DecodedBit, Encode, Punctured, Rank, Kept, IsDepunctured, Gains, IsNormalised;
    ghost var m0 := InitialMetrics(decoder.metric0[..]);
    assert m0[0] == m0[1] == m0[2] == m0[3] == 0;
    assert forall t | 4 <= t < 64 :: m0[t] == decoder.metric0[t];
    DecodeReceived(decoder, e, nCbps, nSym, nDataBits, input, pat, depth, sent);
    ghost var y := decoder.Stream(e, input);
    forall i | 18 * spread <= i < nDataBits && 8 * (i / 8 + depth) + 6 <= |sent.bits|
      ensures i < |sent.bits| && decoder.decoded[i] == sent.bits[i]
    {
      DecodesWhatWasSent(pat, depth, m0, y, sent, spread, i);
    }
  }

  /** Decoding an encoding: the stream that is decoded holds it at the kept positions. */
  method DecodeReceived(decoder: Decoder, e: Encoding, nCbps: nat, nSym: nat, nDataBits: nat, input: array<byte>,
                        ghost pat: pattern, ghost depth: nat, ghost sent: Path)
    requires decoder.Valid() && input !in decoder.Repr()
    requires nDataBits <= decoder.decoded.Length / 8 * 8
    requires match e
             case BPSK_1_2 | QPSK_1_2 | QAM16_1_2 => pat == [1, 1] && depth == 5
             case QAM64_2_3 => pat == [1, 1, 1, 0] && depth == 9
             case BPSK_3_4 | QPSK_3_4 | QAM16_3_4 | QAM64_3_4 => pat == [1, 1, 1, 0, 0, 1] && depth == 10
    requires SymbolsRead(nDataBits, depth) <= if depth == 5 then input.Length else MAX_ENCODED_BITS
    requires nSym * nCbps <= input.Length && forall c | 0 <= c < input.Length :: input[c] < 2
    requires input[..nSym * nCbps] == Punctured(pat, Encode(sent.start, sent.bits))
    requires depth == 10 ==> decoder.NoStaleErasure(nSym * nCbps)
    requires depth != 5 ==> PositionOf(pat, nSym * nCbps) <= MAX_ENCODED_BITS
    modifies decoder.Repr()
    ensures decoder.Valid()
    ensures var m0, y := InitialMetrics(old(decoder.metric0[..])), decoder.Stream(e, input);
            && y == (if depth == 5 then input[..] else decoder.depunctured[..]) && IsReceived(pat, y, sent)
            && (forall i | 0 <= i < nDataBits :: decoder.decoded[i] == DecodedBit(m0, Gains(y), depth, i))
            && (nDataBits > 0 ==>
                  IsNormalised(m0, Gains(y), StoreTime((nDataBits - 1) / 8 + depth), decoder.metric0[..]))
  {
    hide DecodedBit, Encode, Punctured, Rank, Kept, IsDepunctured, Gains, IsNormalised, StoreTime;
    assert pat == PatternOf(e) && depth == TracebackDepth(e);
    ghost var s := Encode(sent.start, sent.bits);
    ghost var x := input[..nSym * nCbps];
    NothingPunctured(s);
    decoder.Decode(e, nCbps, nSym, nDataBits, input);
    ghost var y := decoder.Stream(e, input);
    if depth == 5 {
      WholeIsDepunctured(s);
      assert y[..2 * |sent.bits|] == s;
    } else {
      ghost var count := PositionOf(pat, nSym * nCbps);
      PositionHasRank(pat, nSym * nCbps);
      DepuncturedIsLongEnough(pat, x, y, count, 2 * |sent.bits|);
    }
    DepuncturedOfPunctured(pat, s, y[..2 * |sent.bits|]);
    assert forall c | 0 <= c < 2 * |sent.bits| :: y[c] == y[..2 * |sent.bits|][c];
  }
}
