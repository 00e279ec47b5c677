/**
 The add-compare-select kernel on byte arrays: two trellis steps per call, in the
 sixteen-entry groups and with the paired sixteen-bit path shifts of the original.
 */
module Butterfly {
  import opened Bits
  import opened ConvolutionalCode
  import opened Trellis

  /** A received symbol: a hard bit, or 2 for an erasure. */
  type symbol = x: int | 0 <= x < 3

  function Agree(received: int, sent: bit): int {
    if received == sent then 1 else 0
  }

  /** How many of the received pair (a, b) the encoder reproduces going from s on input x. */
  function PairGain(a: int, b: int, s: state, x: bit): int {
    Agree(a, OutA(s, x)) + Agree(b, OutB(s, x))
  }

  // ----- one trellis step on a whole row of metrics and paths

  function Lower(m: seq<int>, a: int, b: int, t: state): int
    requires |m| == 64
  {
    m[t / 2] + PairGain(a, b, t / 2, t % 2)
  }

  function Upper(m: seq<int>, a: int, b: int, t: state): int
    requires |m| == 64
  {
    m[t / 2 + 32] + PairGain(a, b, t / 2 + 32, t % 2)
  }

  /** Add, compare, select. */
  function StepMetrics(m: seq<int>, a: int, b: int): (r: seq<int>)
    requires |m| == 64
    ensures |r| == 64
  {
    seq(64, t requires 0 <= t < 64 =>
      if Lower(m, a, b, t) > Upper(m, a, b, t) then Lower(m, a, b, t) else Upper(m, a, b, t))
  }

  /** The selected predecessor's path, with the bit it shifts out appended. */
  function StepPaths(m: seq<int>, p: seq<int>, a: int, b: int): (r: seq<int>)
    requires |m| == |p| == 64
    ensures |r| == 64
  {
    seq(64, t requires 0 <= t < 64 =>
      if Lower(m, a, b, t) > Upper(m, a, b, t) then 2 * p[t / 2] else 2 * p[t / 2 + 32] + 1)
  }

  /** The branch tables hold the encoder's outputs on input 0 from the states below 32. */
  ghost predicate IsBranchTable(brtab0: array<byte>, brtab1: array<byte>)
    reads brtab0, brtab1
  {
    && brtab0.Length == brtab1.Length == 32
    && forall n | 0 <= n < 32 :: brtab0[n] == OutA(n, 0) && brtab1[n] == OutB(n, 0)
  }

  // ----- byte identities

  lemma XorDisagrees(x: bit, r: bit)
    ensures Xor(x, r) == 1 - Agree(r, x)
  {
  }

  /** Masking with a decision byte and its complement selects. */
  lemma SelectByte(d: byte, x: byte, z: byte)
    requires d == 0 || d == 0xff
    ensures Or(And(d, x), And(0xff - d, z)) == if d == 0xff then x else z
  {
    ByteMask(x);
    ByteMask(z);
  }

  /** Two path bytes in one sixteen-bit word, shifted left together. */
  function PairedShift(lo: byte, hi: byte): nat {
    Or(lo, hi * 256) * 2 % 0x1_0000
  }

  /** The paired shift equals two byte shifts exactly when the low byte has its top bit clear. */
  lemma PairedShiftIsTwoShifts(lo: byte, hi: byte)
    ensures PairedShift(lo, hi) % 256 == lo * 2 % 256
    ensures PairedShift(lo, hi) / 256 % 256 == hi * 2 % 256 <==> lo < 128
  {
    hide Or;
    OrBytes(lo, hi);
    var l := if lo < 128 then 2 * lo else 2 * lo - 256;
    var c := if lo < 128 then 0 else 1;
    var h := if hi < 128 then 2 * hi else 2 * hi - 256;
    assert PairedShift(lo, hi) == 256 * (h + c) + l;
    assert (256 * (h + c) + l) / 256 == h + c && (256 * (h + c) + l) % 256 == l;
    assert hi * 2 % 256 == h && lo * 2 % 256 == l;
  }

  // ----- the kernel

  /** Byte arithmetic of the branch metrics: x0 and x1 are the table entries of the branch. */
  function Disagreement(a: symbol, b: symbol, x0: bit, x1: bit): byte {
    if a == 2 then Xor(x1, b) % 256
    else if b == 2 then Xor(x0, a) % 256
    else (Xor(x0, a) + Xor(x1, b)) % 256
  }

  function Complement(a: symbol, b: symbol, d: byte): byte {
    if a == 2 || b == 2 then (1 - d) % 256 else (2 - d) % 256
  }

  /** Unless both symbols are erased, these are the agreements with the branches on input 1 and 0. */
  lemma BranchMetricsAgree(a: symbol, b: symbol, n: state)
    requires n < 32 && (a != 2 || b != 2)
    ensures Disagreement(a, b, OutA(n, 0), OutB(n, 0)) == PairGain(a, b, n, 1) == PairGain(a, b, n + 32, 0)
    ensures Complement(a, b, PairGain(a, b, n, 1)) == PairGain(a, b, n, 0) == PairGain(a, b, n + 32, 1)
    ensures 0 <= PairGain(a, b, n, 0) <= 2 && 0 <= PairGain(a, b, n, 1) <= 2
  {
    hide OutA, OutB;
    OutputsFlip(n, 0);
    OutputsFlip(n, 1);
    if b != 2 { XorDisagrees(OutB(n, 0), b); }
    if a != 2 { XorDisagrees(OutA(n, 0), a); }
  }

  /** Agreement with input 0 and input 1 for the sixteen states of group i. */
  method BranchMetrics(i: nat, a: symbol, b: symbol, brtab0: array<byte>, brtab1: array<byte>,
                       metsv: array<byte>, metsvm: array<byte>)
    requires i < 2 && (a != 2 || b != 2)
    requires IsBranchTable(brtab0, brtab1)
    requires metsv.Length == metsvm.Length == 16 && metsv != metsvm
    modifies metsv, metsvm
    ensures forall j | 0 <= j < 16 :: metsv[j] == PairGain(a, b, 16 * i + j, 0)
    ensures forall j | 0 <= j < 16 :: metsvm[j] == PairGain(a, b, 16 * i + j, 1)
  {
    hide PairGain, Disagreement, Complement, OutA, OutB;
    for j := 0 to 16
      invariant forall h | 0 <= h < j :: metsv[h] == PairGain(a, b, 16 * i + h, 0)
      invariant forall h | 0 <= h < j :: metsvm[h] == PairGain(a, b, 16 * i + h, 1)
    {
      BranchMetricsAgree(a, b, i * 16 + j);
      assert brtab0.Length != 16 && brtab1.Length != 16;
      metsvm[j] := Disagreement(a, b, brtab0[i * 16 + j], brtab1[i * 16 + j]);
      metsv[j] := Complement(a, b, metsvm[j]);
    }
  }

  ghost predicate IsSum(row: seq<int>, base: nat, branch: seq<int>, out: seq<int>) {
    && |branch| == |out| == 16 && base + 16 <= |row|
    && forall j | 0 <= j < 16 :: out[j] == row[base + j] + branch[j]
  }

  /** out[j] becomes the sum of row entry base + j and the branch metric, as a byte. */
  method AddMetrics(row: array<byte>, base: nat, branch: array<byte>, out: array<byte>)
    requires row.Length == 64 && base + 16 <= 64 && branch.Length == out.Length == 16 && branch != out
    requires forall t | 0 <= t < 64 :: row[t] <= 253
    requires forall j | 0 <= j < 16 :: branch[j] <= 2
    modifies out
    ensures IsSum(row[..], base, branch[..], out[..])
  {
    for j := 0 to 16
      invariant forall h | 0 <= h < j :: out[h] == row[base + h] + branch[h]
    {
      out[j] := (row[base + j] + branch[j]) % 256;
    }
  }

  /** The larger metric survives, and the decision byte tells which; a tie goes to the second. */
  method CompareSelect(first: array<byte>, second: array<byte>, decision: array<byte>, survivor: array<byte>)
    requires first.Length == second.Length == decision.Length == survivor.Length == 16
    requires decision !in {first, second, survivor} && survivor !in {first, second}
    modifies decision, survivor
    ensures forall j | 0 <= j < 16 :: decision[j] == if first[j] > second[j] then 0xff else 0
    ensures forall j | 0 <= j < 16 :: survivor[j] == if first[j] > second[j] then first[j] else second[j]
  {
    hide Or, And;
    for j := 0 to 16
      invariant forall h | 0 <= h < j :: decision[h] == if first[h] > second[h] then 0xff else 0
      invariant forall h | 0 <= h < j :: survivor[h] == if first[h] > second[h] then first[h] else second[h]
    {
      decision[j] := if first[j] as int - second[j] as int > 0 then 0xff else 0x0;
      SelectByte(decision[j], first[j], second[j]);
      survivor[j] := Or(And(decision[j], first[j]), And(0xff - decision[j], second[j]));
    }
  }

  /** Shifts sixteen path bytes left by one, two at a time in a sixteen-bit word. */
  method ShiftPaths(path: array<byte>, base: nat, shift: array<byte>)
    requires path.Length == 64 && base + 16 <= 64 && shift.Length == 16
    requires forall t | 0 <= t < 64 :: path[t] <= 127
    modifies shift
    ensures forall j | 0 <= j < 16 :: shift[j] == 2 * path[base + j]
  {
    hide PairedShift;
    var j := 0;
    while j < 16
      invariant j % 2 == 0 && j <= 16
      invariant forall h | 0 <= h < j :: shift[h] == 2 * path[base + h]
    {
      var simd := PairedShift(path[base + j], path[base + (j + 1)]);
      PairedShiftIsTwoShifts(path[base + j], path[base + (j + 1)]);
      shift[j] := simd % 256;
      shift[j + 1] := simd / 256 % 256;
      j := j + 2;
    }
  }

  /** Picks the first shifted path where the decision is set, and the second with a one shifted in elsewhere. */
  method SelectPaths(decision: array<byte>, shift0: array<byte>, shift1: array<byte>, out: array<byte>)
    requires decision.Length == shift0.Length == shift1.Length == out.Length == 16
    requires out !in {decision, shift0, shift1}
    requires forall j | 0 <= j < 16 :: decision[j] == 0 || decision[j] == 0xff
    modifies out
    ensures forall j | 0 <= j < 16 :: out[j] == if decision[j] == 0xff then shift0[j] else shift1[j]
  {
    hide Or, And;
    for j := 0 to 16
      invariant forall h | 0 <= h < j :: out[h] == if decision[h] == 0xff then shift0[h] else shift1[h]
    {
      SelectByte(decision[j], shift0[j], shift1[j]);
      out[j] := Or(And(decision[j], shift0[j]), And(0xff - decision[j], shift1[j]));
    }
  }

  /** The entry for successor t of group i, when even and odd successors are kept apart. */
  ghost function Merged(i: nat, even: seq<byte>, odd: seq<byte>, t: nat): byte
    requires |even| == |odd| == 16 && 32 * i <= t < 32 * i + 32
  {
    if t % 2 == 0 then even[t / 2 - 16 * i] else odd[t / 2 - 16 * i]
  }

  /** Interleaves the results for the even and the odd successors into entries 32i to 32i + 31. */
  method Interleave(i: nat, even: array<byte>, odd: array<byte>, out: array<byte>)
    requires i < 2 && even.Length == odd.Length == 16 && out.Length == 64
    modifies out
    ensures forall t | 32 * i <= t < 32 * i + 32 :: out[t] == Merged(i, even[..], odd[..], t)
    ensures forall t | 0 <= t < 64 && !(32 * i <= t < 32 * i + 32) :: out[t] == old(out[t])
  {
    var j, k := 0, 0;
    while j < 16
      invariant j == 2 * k && 0 <= k <= 8
      invariant forall t | 32 * i <= t < 32 * i + 2 * k :: out[t] == Merged(i, even[..], odd[..], t)
      invariant forall t | 0 <= t < 64 && !(32 * i <= t < 32 * i + 32) :: out[t] == old(out[t])
    {
      out[2 * i * 16 + j] := even[k];
      out[2 * i * 16 + (j + 1)] := odd[k];
      j, k := j + 2, k + 1;
    }
    j, k := 0, 8;
    while j < 16
      invariant j == 2 * (k - 8) && 8 <= k <= 16
      invariant forall t | 32 * i <= t < 32 * i + 2 * k :: out[t] == Merged(i, even[..], odd[..], t)
      invariant forall t | 0 <= t < 64 && !(32 * i <= t < 32 * i + 32) :: out[t] == old(out[t])
    {
      out[(2 * i + 1) * 16 + j] := even[k];
      out[(2 * i + 1) * 16 + (j + 1)] := odd[k];
      j, k := j + 2, k + 1;
    }
  }

  /** Every entry of the row is at most this much. */
  ghost predicate AtMost(row: array<byte>, most: int)
    reads row
  {
    forall t | 0 <= t < row.Length :: row[t] <= most
  }

  /** The branch metrics of group i with input 0 and input 1, for the states and for those 32 above them. */
  ghost predicate AreGains(i: nat, a: symbol, b: symbol, sv: seq<int>, svm: seq<int>)
    requires i < 2
  {
    && |sv| == |svm| == 16
    && (forall j | 0 <= j < 16 :: 0 <= sv[j] <= 2 && 0 <= svm[j] <= 2)
    && (forall j | 0 <= j < 16 :: sv[j] == PairGain(a, b, 16 * i + j, 0) == PairGain(a, b, 16 * i + j + 32, 1))
    && (forall j | 0 <= j < 16 :: svm[j] == PairGain(a, b, 16 * i + j, 1) == PairGain(a, b, 16 * i + j + 32, 0))
  }

  lemma GainsOfGroup(i: nat, a: symbol, b: symbol, sv: seq<int>, svm: seq<int>)
    requires i < 2 && (a != 2 || b != 2) && |sv| == |svm| == 16
    requires forall j | 0 <= j < 16 :: sv[j] == PairGain(a, b, 16 * i + j, 0) && svm[j] == PairGain(a, b, 16 * i + j, 1)
    ensures AreGains(i, a, b, sv, svm) && forall j | 0 <= j < 16 :: sv[j] <= 2 && svm[j] <= 2
  {
    hide PairGain;
    forall j | 0 <= j < 16
      ensures 0 <= sv[j] <= 2 && 0 <= svm[j] <= 2
      ensures sv[j] == PairGain(a, b, 16 * i + j, 0) == PairGain(a, b, 16 * i + j + 32, 1)
      ensures svm[j] == PairGain(a, b, 16 * i + j, 1) == PairGain(a, b, 16 * i + j + 32, 0)
    {
      BranchMetricsAgree(a, b, 16 * i + j);
    }
  }

  /** Interleaved, the sums over sixteen states are the candidates of their 32 successors. */
  ghost predicate AreCandidates(i: nat, a: symbol, b: symbol, row: seq<int>,
                                s0: seq<byte>, s1: seq<byte>, s2: seq<byte>, s3: seq<byte>)
    requires i < 2 && |row| == 64 && |s0| == |s1| == |s2| == |s3| == 16
  {
    forall t | 32 * i <= t < 32 * i + 32 ::
      Merged(i, s0, s2, t) == Lower(row, a, b, t) && Merged(i, s1, s3, t) == Upper(row, a, b, t)
  }

  /** The four candidate sums of each butterfly of group i. */
  method GroupSums(i: nat, a: symbol, b: symbol, brtab0: array<byte>, brtab1: array<byte>, metric0: array<byte>)
    returns (m0: array<byte>, m1: array<byte>, m2: array<byte>, m3: array<byte>)
    requires i < 2 && (a != 2 || b != 2) && IsBranchTable(brtab0, brtab1)
    requires metric0.Length == 64 && AtMost(metric0, 253)
    ensures fresh({m0, m1, m2, m3}) && m0.Length == m1.Length == m2.Length == m3.Length == 16
    ensures AreCandidates(i, a, b, metric0[..], m0[..], m1[..], m2[..], m3[..])
  {
    hide PairGain, AreCandidates, AreGains, IsSum, IsBranchTable;
    var metsv, metsvm := new byte[16], new byte[16];
    BranchMetrics(i, a, b, brtab0, brtab1, metsv, metsvm);
    ghost var row, sv, svm := metric0[..], metsv[..], metsvm[..];
    GainsOfGroup(i, a, b, sv, svm);
    m0, m1, m2, m3 := new byte[16], new byte[16], new byte[16], new byte[16];
    assert forall j | 0 <= j < 16 :: metsv[j] == sv[j] <= 2 && metsvm[j] == svm[j] <= 2;
    AddMetrics(metric0, i * 16, metsv, m0);
    ghost var s0 := m0[..];
    AddMetrics(metric0, (i + 2) * 16, metsvm, m1);
    ghost var s1 := m1[..];
    AddMetrics(metric0, i * 16, metsvm, m2);
    ghost var s2 := m2[..];
    AddMetrics(metric0, (i + 2) * 16, metsv, m3);
    assert metric0[..] == row && m0[..] == s0 && m1[..] == s1 && m2[..] == s2;
    SumsAreCandidates(i, a, b, row, sv, svm, s0, s1, s2, m3[..]);
  }

  lemma SumsAreCandidates(i: nat, a: symbol, b: symbol, row: seq<int>, sv: seq<int>, svm: seq<int>,
                          s0: seq<byte>, s1: seq<byte>, s2: seq<byte>, s3: seq<byte>)
    requires i < 2 && |row| == 64 && |s0| == |s1| == |s2| == |s3| == 16 && AreGains(i, a, b, sv, svm)
    requires IsSum(row, i * 16, sv, s0) && IsSum(row, (i + 2) * 16, svm, s1)
    requires IsSum(row, i * 16, svm, s2) && IsSum(row, (i + 2) * 16, sv, s3)
    ensures AreCandidates(i, a, b, row, s0, s1, s2, s3)
  {
    hide PairGain;
    forall t | 32 * i <= t < 32 * i + 32
      ensures Merged(i, s0, s2, t) == Lower(row, a, b, t) && Merged(i, s1, s3, t) == Upper(row, a, b, t)
    {
      var j := t / 2 - 16 * i;
      assert sv[j] == PairGain(a, b, t / 2, 0) == PairGain(a, b, t / 2 + 32, 1);
      assert svm[j] == PairGain(a, b, t / 2, 1) == PairGain(a, b, t / 2 + 32, 0);
    }
  }

  /** The metrics of group i: entries 32i to 32i + 31 of the next row, and which half each came from. */
  method GroupMetrics(i: nat, a: symbol, b: symbol, brtab0: array<byte>, brtab1: array<byte>, metric0: array<byte>,
                      decision0: array<byte>, decision1: array<byte>, metric1: array<byte>)
    requires i < 2 && (a != 2 || b != 2) && IsBranchTable(brtab0, brtab1)
    requires metric0.Length == metric1.Length == 64 && metric0 != metric1 && AtMost(metric0, 253)
    requires decision0.Length == decision1.Length == 16 && decision0 != decision1
    modifies decision0, decision1, metric1
    ensures forall j | 0 <= j < 16 :: decision0[j] in {0, 0xff} && decision1[j] in {0, 0xff}
    ensures forall t | 32 * i <= t < 32 * i + 32 ::
              Merged(i, decision0[..], decision1[..], t) == 0xff <==>
              Lower(metric0[..], a, b, t) > Upper(metric0[..], a, b, t)
    ensures forall t | 32 * i <= t < 32 * i + 32 :: metric1[t] == StepMetrics(metric0[..], a, b)[t]
    ensures forall t | 0 <= t < 64 && !(32 * i <= t < 32 * i + 32) :: metric1[t] == old(metric1[t])
  {
    hide Lower, Upper;
    var m0, m1, m2, m3 := GroupSums(i, a, b, brtab0, brtab1, metric0);
    ghost var s0, s1, s2, s3 := m0[..], m1[..], m2[..], m3[..];
    var survivor0, survivor1 := new byte[16], new byte[16];
    CompareSelect(m0, m1, decision0, survivor0);
    CompareSelect(m2, m3, decision1, survivor1);
    Interleave(i, survivor0, survivor1, metric1);
    assert m0[..] == s0 && m1[..] == s1 && m2[..] == s2 && m3[..] == s3;
  }

  /** The paths of group i, selected by the decisions. */
  method GroupPaths(i: nat, decision0: array<byte>, decision1: array<byte>, path0: array<byte>, path1: array<byte>)
    requires i < 2 && path0.Length == path1.Length == 64 && path0 != path1 && AtMost(path0, 127)
    requires decision0.Length == decision1.Length == 16
    requires forall j | 0 <= j < 16 :: decision0[j] in {0, 0xff} && decision1[j] in {0, 0xff}
    modifies path1
    ensures forall t | 32 * i <= t < 32 * i + 32 ::
              path1[t] == if Merged(i, decision0[..], decision1[..], t) == 0xff then 2 * path0[t / 2]
                          else 2 * path0[t / 2 + 32] + 1
    ensures forall t | 0 <= t < 64 && !(32 * i <= t < 32 * i + 32) :: path1[t] == old(path1[t])
  {
    var shift0, shift1, tmp0, tmp1 := new byte[16], new byte[16], new byte[16], new byte[16];
    ShiftPaths(path0, i * 16, shift0);
    ShiftPaths(path0, (i + 2) * 16, shift1);
    for j := 0 to 16
      modifies shift1
      invariant forall h | 0 <= h < j :: shift1[h] == 2 * path0[16 * i + h + 32] + 1
      invariant forall h | j <= h < 16 :: shift1[h] == 2 * path0[16 * i + h + 32]
    {
      shift1[j] := (shift1[j] + 1) % 256;
    }
    SelectPaths(decision0, shift0, shift1, tmp0);
    SelectPaths(decision1, shift0, shift1, tmp1);
    Interleave(i, tmp0, tmp1, path1);
  }

  /** One trellis step, from metric0 and path0 to metric1 and path1. */
  method Step(a: symbol, b: symbol, brtab0: array<byte>, brtab1: array<byte>,
              metric0: array<byte>, path0: array<byte>, metric1: array<byte>, path1: array<byte>)
    requires (a != 2 || b != 2) && IsBranchTable(brtab0, brtab1)
    requires metric0.Length == path0.Length == metric1.Length == path1.Length == 64
    requires metric1 !in {metric0, path0, path1} && path1 !in {metric0, path0}
    requires AtMost(metric0, 253) && AtMost(path0, 127)
    modifies metric1, path1
    ensures metric1[..] == StepMetrics(metric0[..], a, b)
    ensures path1[..] == StepPaths(metric0[..], path0[..], a, b)
  {
    hide Lower, Upper;
    for i := 0 to 2
      invariant forall t | 0 <= t < 32 * i :: metric1[t] == StepMetrics(metric0[..], a, b)[t]
      invariant forall t | 0 <= t < 32 * i :: path1[t] == StepPaths(metric0[..], path0[..], a, b)[t]
    {
      var decision0, decision1 := new byte[16], new byte[16];
      GroupMetrics(i, a, b, brtab0, brtab1, metric0, decision0, decision1, metric1);
      GroupPaths(i, decision0, decision1, path0, path1);
    }
  }

  lemma StepBounds(m: seq<int>, p: seq<int>, a: int, b: int, most: int, top: int)
    requires |m| == |p| == 64
    requires forall t | 0 <= t < 64 :: m[t] <= most && p[t] <= top
    ensures forall t | 0 <= t < 64 :: StepMetrics(m, a, b)[t] <= most + 2 && StepPaths(m, p, a, b)[t] <= 2 * top + 1
  {
    hide OutA, OutB;
  }

  /**
   Two trellis steps on the symbols s[0..4], through the intermediate row mm1, pp1.
   The headroom asked for is what keeps every byte operation exact.
   */
  method ViterbiButterfly2(s: seq<symbol>, brtab0: array<byte>, brtab1: array<byte>,
                           mm0: array<byte>, mm1: array<byte>, pp0: array<byte>, pp1: array<byte>)
    requires |s| == 4 && (s[0] != 2 || s[1] != 2) && (s[2] != 2 || s[3] != 2)
    requires IsBranchTable(brtab0, brtab1)
    requires mm0.Length == mm1.Length == pp0.Length == pp1.Length == 64
    requires mm0 !in {mm1, pp0, pp1} && mm1 !in {pp0, pp1} && pp0 != pp1
    requires AtMost(mm0, 251) && AtMost(pp0, 63)
    modifies mm0, mm1, pp0, pp1
    ensures mm1[..] == StepMetrics(old(mm0[..]), s[0], s[1])
    ensures pp1[..] == StepPaths(old(mm0[..]), old(pp0[..]), s[0], s[1])
    ensures mm0[..] == StepMetrics(mm1[..], s[2], s[3])
    ensures pp0[..] == StepPaths(mm1[..], pp1[..], s[2], s[3])
  {
    assert brtab0.Length == brtab1.Length == 32;
    hide StepMetrics, StepPaths, IsBranchTable;
    var metric0, path0, metric1, path1 := mm0, pp0, mm1, pp1;
    var first := 0;
    for pass := 0 to 2
      invariant first == 2 * pass
      invariant pass == 0 ==> metric0 == mm0 && path0 == pp0 && metric1 == mm1 && path1 == pp1
      invariant pass > 0 ==> metric0 == mm1 && path0 == pp1 && metric1 == mm0 && path1 == pp0
      invariant pass == 0 ==> mm0[..] == old(mm0[..]) && pp0[..] == old(pp0[..])
      invariant pass > 0 ==> mm1[..] == StepMetrics(old(mm0[..]), s[0], s[1])
      invariant pass > 0 ==> pp1[..] == StepPaths(old(mm0[..]), old(pp0[..]), s[0], s[1])
      invariant pass == 1 ==> AtMost(mm1, 253) && AtMost(pp1, 127)
      invariant pass == 2 ==> mm0[..] == StepMetrics(mm1[..], s[2], s[3])
      invariant pass == 2 ==> pp0[..] == StepPaths(mm1[..], pp1[..], s[2], s[3])
    {
      if pass == 0 {
        StepBounds(metric0[..], path0[..], s[0], s[1], 251, 63);
      }
      Step(s[first], s[first + 1], brtab0, brtab1, metric0, path0, metric1, path1);
      metric0, path0, metric1, path1 := mm1, pp1, mm0, pp0;
      first := first + 2;
    }
  }
}
