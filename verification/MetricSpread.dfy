/**
 Every two metrics differ by at most twelve after every step of every frame, the first steps of a later frame
 included, where four metrics have been cleared and the others are those of the frame before.
 */
module MetricSpread {
  import opened Bits
  import opened ConvolutionalCode
  import opened Linearity
  import opened Trellis
  import opened Butterfly
  import opened Decoding

  // ----- how far two values can be apart

  /** The gains of two paths differ by no more than the ones along their difference. */
  lemma {:induction false} GainsDiffer(y: seq<int>, p: Path, q: Path)
    requires |p.bits| == |q.bits|
    ensures var d := Diff(p, q);
            Gained(Gains(y), p.start, p.bits) <= Gained(Gains(y), q.start, q.bits) + OnesSent(d.start, d.bits)
    decreases |p.bits|
  {
    hide Gains, Diff, OutA, OutB, Run, OnesSent;
    if |p.bits| != 0 {
      var n, d := |p.bits| - 1, Diff(p, q);
      DiffLength(p, q);
      var p', q' := Path(p.start, p.bits[..n]), Path(q.start, q.bits[..n]);
      GainsDiffer(y, p', q');
      DiffOfHeads(p, q, n);
      StepsDiffer(y, p, q);
      OnesSentSnoc(d.start, d.bits);
    }
  }

  lemma DiffOfHeads(p: Path, q: Path, n: nat)
    requires n <= |p.bits| == |q.bits|
    ensures var d := Diff(p, q);
            && |d.bits| == |p.bits|
            && Diff(Path(p.start, p.bits[..n]), Path(q.start, q.bits[..n])) == Path(d.start, d.bits[..n])
  {
    assert Flips(p.bits[..n], q.bits[..n]) == Flips(p.bits, q.bits)[..n];
  }

  lemma StepsDiffer(y: seq<int>, p: Path, q: Path)
    requires |p.bits| == |q.bits| > 0
    ensures var n, d := |p.bits| - 1, Diff(p, q);
            && |d.bits| == |p.bits|
            && Gains(y)(n, Run(p.start, p.bits[..n]), p.bits[n])
            <= Gains(y)(n, Run(q.start, q.bits[..n]), q.bits[n])
               + OutA(Run(d.start, d.bits[..n]), d.bits[n]) + OutB(Run(d.start, d.bits[..n]), d.bits[n])
  {
    hide Encode, Diff, OutA, OutB, Run;
    var n, d := |p.bits| - 1, Diff(p, q);
    DiffLength(p, q);
    EncodeOfDiff(p, q, n);
    EncodeAt(p.start, p.bits, n);
    EncodeAt(q.start, q.bits, n);
    EncodeAt(d.start, d.bits, n);
  }

  lemma {:induction false} OnesAfterZeros(z: seq<bit>, u: seq<bit>)
    requires forall j | 0 <= j < |z| :: z[j] == 0
    ensures OnesSent(0, z + u) == OnesSent(0, u) && Run(0, z + u) == Run(0, u)
  {
    hide OnesSent;
    if |u| == 0 {
      assert z + u == z;
      ZerosStay(z);
      NothingSent(0);
    } else {
      OnesSentSnoc(0, u);
      OnesSentSnoc(0, z + u);
      OnesAfterZeros(z, u[..|u| - 1]);
      assert (z + u)[..|z| + |u| - 1] == z + u[..|u| - 1];
    }
  }

  lemma {:induction false} ZerosStay(z: seq<bit>)
    requires forall j | 0 <= j < |z| :: z[j] == 0
    ensures OnesSent(0, z) == 0 && Run(0, z) == 0
  {
    hide OnesSent;
    if |z| == 0 {
      NothingSent(0);
    } else {
      ZerosStay(z[..|z| - 1]);
      OnesSentSnoc(0, z);
    }
  }

  lemma NothingSent(x: state)
    ensures OnesSent(x, []) == 0
  {
  }

  lemma {:induction false} OnesAtMost(x: state, u: seq<bit>)
    ensures OnesSent(x, u) <= 2 * |u|
  {
    hide OutA, OutB, Run, OnesSent;
    if |u| == 0 {
      NothingSent(x);
    } else {
      OnesAtMost(x, u[..|u| - 1]);
      OnesSentSnoc(x, u);
    }
  }

  /** How far the value of s can be above that of t: they share what came before their six bits. */
  function Apart(s: state, t: state): nat {
    OnesSent(0, LowBits(Differ(s, t), 6))
  }

  lemma {:induction false} XorSelf(a: nat)
    ensures Xor(a, a) == 0
  {
    if a != 0 { XorSelf(a / 2); }
  }

  /** From step six on, values are no further apart than the six bits of their states allow. */
  lemma ValuesAreSettled(m0: bias, y: seq<int>, k: nat, s: state, t: state)
    requires 6 <= k
    ensures Value(m0, Gains(y), k, s) <= Value(m0, Gains(y), k, t) + Apart(s, t)
  {
    hide Value, Gained, Gains, Run, LowBits, OnesSent, Xor, Stream;
    var p := Survivor(m0, Gains(y), k, s);
    SurvivorAttainsValue(m0, Gains(y), k, s);
    var head, b := p.bits[..k - 6], LowBits(t, 6);
    var q := Path(p.start, head + b);
    RunAppend(p.start, head, b);
    ApproachLeadsTo(Run(p.start, head), t);
    ValueIsUpperBound(m0, Gains(y), q);
    GainsDiffer(y, p, q);
    XorSelf(p.start);
    LastSixInputs(p);
    XorLowBits(s, t, 6);
    var z := Flips(head, head);
    assert Flips(p.bits, q.bits) == z + LowBits(Differ(s, t), 6);
    OnesAfterZeros(z, LowBits(Differ(s, t), 6));
  }

  lemma LastSixInputs(p: Path)
    requires |p.bits| >= 6
    ensures p.bits[|p.bits| - 6..] == LowBits(p.End(), 6)
  {
    hide Run, LowBits;
    EndIsLastSix(p);
  }

  // ----- the metrics between two frames

  /**
   Metrics as a frame leaves them: within 0..12 and, but for the four that the next frame clears, no further apart
   than the bits of the states allow.
   */
  ghost predicate IsSettled(m: seq<int>) {
    && |m| == 64 && (forall t | 0 <= t < 64 :: 0 <= m[t] <= 12)
    && forall s: state, t: state | 4 <= s && 4 <= t :: m[s] <= m[t] + Apart(s, t)
  }

  lemma ZeroIsSettled(m: seq<int>)
    requires |m| == 64 && forall t | 0 <= t < 64 :: m[t] == 0
    ensures IsSettled(m)
  {
  }

  lemma ClearedIsSettled(m: seq<int>)
    requires IsSettled(m)
    ensures IsSettled(InitialMetrics(m))
  {
    hide Apart;
  }

  lemma NormalisedIsSettled(m0: bias, y: seq<int>, k: nat, m: seq<int>)
    requires 6 <= k && IsNormalised(m0, Gains(y), k, m)
    ensures IsSettled(m)
  {
    hide Apart, Value, Gains;
    GainsAreBounded(y);
    forall s: state, t: state
      ensures m[s] <= m[t] + Apart(s, t) && m[s] <= m[t] + 12 && 0 <= m[s]
    {
      ValuesAreSettled(m0, y, k, s, t);
      ValueSpread(m0, Gains(y), k, s, t);
    }
  }

  // ----- the first steps of the next frame

  /** The bits of a state from which the last n bits of t lead to t. */
  function Behind(t: state, j: seq<bit>): seq<bit>
    requires |j| <= 6
  {
    j + LowBits(t, 6)[..6 - |j|]
  }

  lemma BehindLeadsTo(t: state, j: seq<bit>)
    requires |j| <= 6
    ensures |Behind(t, j)| == 6 && Run(FromBits(Behind(t, j)), LowBits(t, 6)[6 - |j|..]) == t
  {
    hide Run, LowBits, Val;
    var c, u := FromBits(Behind(t, j)), LowBits(t, 6)[6 - |j|..];
    EndIsLastSix(Path(c, u));
    assert Stream(Path(c, u)) == j + LowBits(t, 6);
    StateOfBits(t);
    StateOfBits(Run(c, u));
  }

  /** The bits of a difference, and the ones along it if its first j bits are zeros. */
  lemma ApartBits(s: state, c: state, j: nat)
    requires j <= 6 && forall i | 0 <= i < j :: LowBits(s, 6)[i] == LowBits(c, 6)[i]
    ensures Apart(s, c) <= 2 * (6 - j)
    ensures forall i | 0 <= i < 6 :: LowBits(Differ(s, c), 6)[i] == Plus(LowBits(s, 6)[i], LowBits(c, 6)[i])
  {
    hide LowBits, OnesSent, Xor;
    XorLowBits(s, c, 6);
    var e := LowBits(Differ(s, c), 6);
    assert e == e[..j] + e[j..];
    OnesAfterZeros(e[..j], e[j..]);
    OnesAtMost(0, e[j..]);
  }

  /** The twelve symbols sent along six bits from state zero. */
  lemma SixOutputs(e: seq<bit>)
    requires |e| == 6
    ensures OnesSent(0, e) ==
            (e[0] as int) + e[0] + e[1] + Plus(e[1], e[0])
            + Plus(e[2], e[0]) + Plus(e[2], Plus(e[1], e[0]))
            + Plus(e[3], Plus(e[1], e[0])) + Plus(e[3], Plus(e[2], Plus(e[1], e[0])))
            + Plus(e[4], Plus(e[2], e[1])) + Plus(e[4], Plus(e[3], Plus(e[2], e[1])))
            + Plus(e[5], Plus(e[3], Plus(e[2], e[0]))) + Plus(e[5], Plus(e[4], Plus(e[3], e[2])))
  {
    hide OnesSent, OutA, OutB, Run;
    OnesAfter(e, 0);
    OnesAfter(e, 1);
    OnesAfter(e, 2);
    OnesAfter(e, 3);
    OnesAfter(e, 4);
    OnesAfter(e, 5);
    assert e[..6] == e;
    ZerosStay(e[..0]);
  }

  lemma OnesAfter(e: seq<bit>, i: nat)
    requires |e| == 6 && i < 6
    ensures var z := seq(6, _ => 0) + e;
            OnesSent(0, e[..i + 1]) == OnesSent(0, e[..i])
              + Plus(z[i + 6], Plus(z[i + 4], Plus(z[i + 3], Plus(z[i + 1], z[i]))))
              + Plus(z[i + 6], Plus(z[i + 5], Plus(z[i + 4], Plus(z[i + 3], z[i]))))
  {
    hide OutA, OutB, Run, OnesSent;
    assert e[..i + 1][..i] == e[..i];
    OnesSentSnoc(0, e[..i + 1]);
    EncodeAt(0, e, i);
    EncodeIsSlidingSum(Path(0, e), i);
    assert LowBits(0, 6) == seq(6, _ => 0) by { ZeroLowBits(6); }
  }

  lemma {:induction false} ZeroLowBits(n: nat)
    ensures LowBits(0, n) == seq(n, _ => 0)
  {
    if n != 0 { ZeroLowBits(n - 1); }
  }

  /** A difference that begins with a one, and has another one before its last two bits, does not send ones only. */
  lemma SlowRise(e: seq<bit>, n: nat)
    requires |e| == 6 && 1 <= n <= 3
    requires (forall i | 0 <= i < n - 1 :: e[i] == 0) && e[n - 1] == 1 && exists i :: n <= i < 4 && e[i] == 1
    ensures OnesSent(0, e) <= 12 - 2 * n
  {
    hide OnesSent;
    SixOutputs(e);
  }

  /** A state that has not been cleared, and from which t is reached in n steps, is close behind s. */
  lemma CloseBehind(s: state, t: state, n: nat) returns (c: state)
    requires 4 <= s && 1 <= n <= 5
    ensures 4 <= c && Apart(s, c) <= 12 - 2 * n && Run(c, LowBits(t, 6)[6 - n..]) == t
  {
    hide LowBits, Apart, Run, FromBits;
    var u, v := LowBits(s, 6), LowBits(t, 6);
    ClearedBits(s);
    c := FromBits(Behind(t, u[..n]));
    BehindLeadsTo(t, u[..n]);
    ApartBits(s, c, n);
    ClearedBits(c);
    if c < 4 {
      c := AroundCleared(s, t, n);
    }
  }

  /** Where the obvious predecessor has been cleared, another one is not. */
  lemma AroundCleared(s: state, t: state, n: nat) returns (c: state)
    requires 4 <= s && 1 <= n <= 5 && FromBits(Behind(t, LowBits(s, 6)[..n])) < 4
    ensures 4 <= c && Apart(s, c) <= 12 - 2 * n && Run(c, LowBits(t, 6)[6 - n..]) == t
  {
    hide LowBits, OnesSent, Run, FromBits, Differ;
    var u, v := LowBits(s, 6), LowBits(t, 6);
    ClearedBits(s);
    var o := FromBits(Behind(t, u[..n]));
    ClearedBits(o);
    assert n <= 3 && (forall i | 0 <= i < n :: u[i] == LowBits(o, 6)[i] == 0);
    assert forall i | n <= i < 4 :: v[i - n] == LowBits(o, 6)[i] == 0;
    var j: seq<bit> := u[..n - 1] + [1];
    c := FromBits(Behind(t, j));
    BehindLeadsTo(t, j);
    ClearedBits(c);
    assert LowBits(c, 6)[n - 1] == 1;
    ApartBits(s, c, n - 1);
    assert exists i :: n <= i < 4 && u[i] == 1;
    SlowRise(LowBits(Differ(s, c), 6), n);
  }

  /** The spread of a frame's values never exceeds twelve. */
  ghost predicate StaysClose(m0: bias, g: gain) {
    forall n: nat, s: state, t: state :: Value(m0, g, n, s) <= Value(m0, g, n, t) + 12
  }

  lemma FrameStaysClose(m: seq<int>, y: seq<int>)
    requires IsSettled(m)
    ensures StaysClose(InitialMetrics(m), Gains(y))
  {
    assert |m| == 64;
    hide Value, IsSettled, Gains;
    forall n: nat, s: state, t: state
      ensures Value(InitialMetrics(m), Gains(y), n, s) <= Value(InitialMetrics(m), Gains(y), n, t) + 12
    {
      SpreadAfter(m, y, n, s, t);
    }
  }

  lemma SpreadAfter(m: seq<int>, y: seq<int>, n: nat, t: state, t': state)
    requires IsSettled(m)
    ensures Value(InitialMetrics(m), Gains(y), n, t) <= Value(InitialMetrics(m), Gains(y), n, t') + 12
  {
    hide Gains, Apart;
    GainsAreBounded(y);
    if n >= 6 {
      ValueSpread(InitialMetrics(m), Gains(y), n, t, t');
    } else if n > 0 {
      SpreadEarly(m, Gains(y), n, t, t');
    }
  }

  lemma SpreadEarly(m: seq<int>, g: gain, n: nat, t: state, t': state)
    requires IsSettled(m) && Bounded(g) && 1 <= n <= 5
    ensures Value(InitialMetrics(m), g, n, t) <= Value(InitialMetrics(m), g, n, t') + 12
  {
    var m0 := InitialMetrics(m);
    StartOfFrame(m, 0, 0);
    hide Bounded, Apart, Run, LowBits, Ancestor, Value, IsSettled, InitialMetrics;
    var s := Ancestor(m0, g, 0, n, t);
    ValueGrowth(m0, g, 0, n, t);
    ValueAtStart(m0, g);
    if s < 4 {
      StartOfFrame(m, s, s);
      ValueIsNatural(m0, g, n, t');
    } else {
      FollowsClosely(m, g, n, s, t');
    }
  }

  /** No value is further behind a start state that has not been cleared. */
  lemma FollowsClosely(m: seq<int>, g: gain, n: nat, s: state, t: state)
    requires IsSettled(m) && Bounded(g) && 1 <= n <= 5 && 4 <= s
    ensures InitialMetrics(m)[s] + 2 * n <= Value(InitialMetrics(m), g, n, t) + 12
  {
    var m0 := InitialMetrics(m);
    StartOfFrame(m, 0, 0);
    hide Bounded, Apart, Run, LowBits, Value, IsSettled, InitialMetrics;
    var c := CloseBehind(s, t, n);
    StartOfFrame(m, s, c);
    ValueAtStart(m0, g);
    ValueAfterInputs(m0, g, 0, c, LowBits(t, 6)[6 - n..]);
  }

  lemma StartOfFrame(m: seq<int>, s: state, c: state)
    requires IsSettled(m)
    ensures var m0 := InitialMetrics(m);
            && (s < 4 ==> m0[s] == 0) && (4 <= s && 4 <= c ==> m0[s] <= m0[c] + Apart(s, c))
            && forall t | 0 <= t < 64 :: m0[t] >= 0
  {
    hide Apart;
  }

  lemma ValueAtStart(m0: bias, g: gain)
    ensures forall s: state :: Value(m0, g, 0, s) == m0[s]
  {
  }

  lemma ValueIsNatural(m0: bias, g: gain, n: nat, t: state)
    requires Bounded(g) && forall s | 0 <= s < 64 :: m0[s] >= 0
    ensures Value(m0, g, n, t) >= 0
  {
    ValueGrowth(m0, g, 0, n, t);
    ValueAtStart(m0, g);
  }

  ghost predicate WithinTwelve(m: seq<int>) {
    |m| == 64 && forall s, t | 0 <= s < 64 && 0 <= t < 64 :: m[s] <= m[t] + 12
  }

  /** So do the metrics of a row, whatever has been subtracted. */
  lemma RowStaysClose(m0: bias, g: gain, w: nat, k: nat, sub: int, m: seq<int>, p: seq<int>)
    requires w <= k && Tracks(m0, g, w, k, sub, m, p) && StaysClose(m0, g)
    ensures WithinTwelve(m)
  {
    hide Value;
    forall s: state, t: state
      ensures m[s] <= m[t] + 12
    {
    }
  }

  /** After each of the two steps of a kernel call. */
  lemma KernelStaysClose(m0: bias, y: seq<int>, w: nat, k: nat, sub: int, m: seq<int>, p: seq<int>)
    requires w <= k && 2 * k + 3 < |y| && |m| == |p| == 64
    requires Tracks(m0, Gains(y), w, k, sub, m, p) && StaysClose(m0, Gains(y))
    ensures var m1 := StepMetrics(m, y[2 * k], y[2 * k + 1]);
            WithinTwelve(m1) && WithinTwelve(StepMetrics(m1, y[2 * k + 2], y[2 * k + 3]))
  {
    hide Tracks, StepMetrics, StepPaths, Gains, StaysClose, WithinTwelve;
    var m1, p1 := StepMetrics(m, y[2 * k], y[2 * k + 1]), StepPaths(m, p, y[2 * k], y[2 * k + 1]);
    StepTracks(m0, y, w, k, sub, m, p);
    RowStaysClose(m0, Gains(y), w, k + 1, sub, m1, p1);
    StepTracks(m0, y, w, k + 1, sub, m1, p1);
    RowStaysClose(m0, Gains(y), w, k + 2, sub, StepMetrics(m1, y[2 * k + 2], y[2 * k + 3]),
                  StepPaths(m1, p1, y[2 * k + 2], y[2 * k + 3]));
  }

  lemma SettledBounds(m: seq<int>)
    requires IsSettled(m)
    ensures |m| == 64 && (forall t | 0 <= t < 64 :: 0 <= m[t] <= 12)
    ensures forall t | 0 <= t < 64 :: 0 <= InitialMetrics(m)[t] <= 12
  {
    hide Apart;
  }
}
