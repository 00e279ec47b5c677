/**
 Path bytes and traceback.  Between two stores every state carries, in one byte, the bits that
 were shifted out of the states on its survivor; walking stored bytes back recovers the survivor.
 */
module Traceback {
  import opened Bits
  import opened ConvolutionalCode
  import opened Trellis

  /** The bits shifted out on the survivor of t between times w and k, oldest first. */
  function PathBits(m0: bias, g: gain, w: nat, k: nat, t: state): nat
    requires w <= k
    decreases k
  {
    if w == k then 0
    else
      var q := Pred(m0, g, k, t);
      2 * PathBits(m0, g, w, k - 1, q) + q / 32
  }

  lemma {:induction false} PathBitsBound(m0: bias, g: gain, w: nat, k: nat, t: state)
    requires w <= k
    ensures PathBits(m0, g, w, k, t) < Pow2(k - w)
    decreases k
  {
    if w != k {
      PathBitsBound(m0, g, w, k - 1, Pred(m0, g, k, t));
    }
  }

  /** The register a, extended on the right by the bits v. */
  function Extend(a: nat, v: seq<bit>): nat {
    if |v| == 0 then a else 2 * Extend(a, v[..|v| - 1]) + v[|v| - 1]
  }

  lemma {:induction false} SurvivorPrefix(m0: bias, g: gain, w: nat, k: nat, t: state)
    requires w <= k
    ensures var p, p' := Survivor(m0, g, k, t), Survivor(m0, g, w, Ancestor(m0, g, w, k, t));
            p.start == p'.start && p.bits[..w] == p'.bits
    decreases k
  {
    hide Pred;
    if w == k {
      assert Survivor(m0, g, k, t).bits[..k] == Survivor(m0, g, k, t).bits;
    } else {
      var q := Pred(m0, g, k, t);
      SurvivorPrefix(m0, g, w, k - 1, q);
      assert Survivor(m0, g, k, t).bits[..w] == Survivor(m0, g, k - 1, q).bits[..w];
    }
  }

  lemma {:induction false} AncestorAncestor(m0: bias, g: gain, w: nat, v: nat, k: nat, t: state)
    requires w <= v <= k
    ensures Ancestor(m0, g, w, k, t) == Ancestor(m0, g, w, v, Ancestor(m0, g, v, k, t))
    decreases k
  {
    if v != k {
      AncestorAncestor(m0, g, w, v, k - 1, Pred(m0, g, k, t));
    }
  }

  /** The state at time w followed by the inputs since is the shifted-out bits followed by the state now. */
  lemma {:induction false} PathEquation(m0: bias, g: gain, w: nat, k: nat, t: state)
    requires w <= k
    ensures Extend(Ancestor(m0, g, w, k, t), Survivor(m0, g, k, t).bits[w..]) == 64 * PathBits(m0, g, w, k, t) + t
    decreases k
  {
    hide Pred, Next;
    if w == k {
      assert Survivor(m0, g, k, t).bits[w..] == [];
    } else {
      var q := Pred(m0, g, k, t);
      PathEquation(m0, g, w, k - 1, q);
      var v, v' := Survivor(m0, g, k, t).bits[w..], Survivor(m0, g, k - 1, q).bits[w..];
      assert v == v' + [t % 2];
      ExtendSnoc(Ancestor(m0, g, w, k, t), v', t % 2);
      StateShiftsOut(m0, g, k, t);
    }
  }

  lemma ExtendSnoc(a: nat, v: seq<bit>, b: bit)
    ensures Extend(a, v + [b]) == 2 * Extend(a, v) + b
  {
    assert (v + [b])[..|v|] == v;
  }

  /** One step shifts the top bit of the selected predecessor out. */
  lemma StateShiftsOut(m0: bias, g: gain, k: nat, t: state)
    requires 0 < k
    ensures var q := Pred(m0, g, k, t); 2 * q + t % 2 == 64 * (q / 32) + t
  {
  }

  lemma {:induction false} ExtendAppend(a: nat, v: seq<bit>, z: seq<bit>)
    ensures Extend(a, v + z) == Extend(Extend(a, v), z)
  {
    if |z| == 0 {
      assert v + z == v;
    } else {
      ExtendAppend(a, v, z[..|z| - 1]);
      assert (v + z)[..|v| + |z| - 1] == v + z[..|z| - 1];
    }
  }

  lemma {:induction false} ExtendVal(u: seq<bit>, v: seq<bit>)
    ensures Extend(Val(u), v) == Val(u + v)
  {
    if |v| == 0 {
      assert u + v == u;
    } else {
      ExtendVal(u, v[..|v| - 1]);
      assert (u + v)[..|u| + |v| - 1] == u + v[..|v| - 1];
    }
  }

  lemma ExtendThree(a: nat, z: seq<bit>)
    requires |z| == 3
    ensures Extend(a, z) / 8 == a
  {
    assert z[..2][..1] == z[..1];
    assert Extend(a, z[..1]) == 2 * a + z[0];
    assert Extend(a, z[..2]) == 2 * (2 * a + z[0]) + z[1];
  }

  /** Extending by six bits and dropping six bits again. */
  lemma ExtendSix(a: nat, z: seq<bit>)
    requires |z| == 6
    ensures Extend(a, z) / 64 == a
  {
    assert z == z[..3] + z[3..];
    ExtendAppend(a, z[..3], z[3..]);
    ExtendThree(a, z[..3]);
    ExtendThree(Extend(a, z[..3]), z[3..]);
  }

  /** A full window of eight steps: the byte holds the state at its start and the first two inputs. */
  lemma WindowByte(m0: bias, g: gain, w: nat, t: state)
    ensures var u := Survivor(m0, g, w + 8, t).bits;
            PathBits(m0, g, w, w + 8, t) == Extend(Ancestor(m0, g, w, w + 8, t), u[w..w + 2])
    ensures PathBits(m0, g, w, w + 8, t) / 4 == Ancestor(m0, g, w, w + 8, t)
  {
    hide Survivor, Ancestor, PathBits;
    var u := Survivor(m0, g, w + 8, t).bits;
    var a := Ancestor(m0, g, w, w + 8, t);
    PathEquation(m0, g, w, w + 8, t);
    var v, z := u[w..w + 2], u[w + 2..];
    assert u[w..] == v + z;
    ExtendAppend(a, v, z);
    ExtendSix(Extend(a, v), z);
    assert v[..1] == [u[w]];
    assert Extend(a, v[..1]) == 2 * (a as int) + u[w];
  }

  /** From step six on, the survivor's state at a window's start is its last six bits. */
  lemma AncestorIsLastSix(m0: bias, g: gain, w: nat, t: state)
    requires 6 <= w
    ensures Ancestor(m0, g, w, w + 8, t) == Val(Survivor(m0, g, w + 8, t).bits[w - 6..w])
  {
    var p, a := Survivor(m0, g, w + 8, t), Ancestor(m0, g, w, w + 8, t);
    SurvivorPrefix(m0, g, w, w + 8, t);
    SurvivorAttainsValue(m0, g, w, a);
    hide Ancestor, Survivor, Value, Run, Val, Weight;
    RunLastSix(p.start, p.bits[..w]);
    assert p.bits[..w][w - 6..] == p.bits[w - 6..w];
  }

  /** Then a full window's byte is eight consecutive bits of the survivor. */
  lemma WindowByteIsSurvivor(m0: bias, g: gain, w: nat, t: state)
    requires 6 <= w
    ensures PathBits(m0, g, w, w + 8, t) == Val(Survivor(m0, g, w + 8, t).bits[w - 6..w + 2])
  {
    hide Ancestor, PathBits, Survivor, Extend, Val;
    var u := Survivor(m0, g, w + 8, t).bits;
    WindowByte(m0, g, w, t);
    AncestorIsLastSix(m0, g, w, t);
    ExtendVal(u[w - 6..w], u[w..w + 2]);
    assert u[w - 6..w] + u[w..w + 2] == u[w - 6..w + 2];
  }

  // ----- the stored windows

  /** Step count at the c-th store: six steps before the first store, eight between stores. */
  function StoreTime(c: nat): nat {
    6 + 8 * c
  }

  lemma StoreTimeIsLate(c: nat)
    ensures StoreTime(c) >= 6
  {
  }

  type row = r: seq<byte> | |r| == 64 witness seq(64, _ => 0)

  ghost predicate IsWindow(m0: bias, g: gain, c: nat, r: row)
  {
    forall t: state :: r[t] == PathBits(m0, g, if c == 0 then 0 else StoreTime(c - 1), StoreTime(c), t)
  }

  ghost predicate IsHistory(m0: bias, g: gain, h: seq<row>)
  {
    forall c | 0 <= c < |h| :: IsWindow(m0, g, c, h[c])
  }

  /** Reads the byte found after walking j windows back from the last one, starting in state s. */
  function Walk(h: seq<row>, s: state, j: nat): byte
    requires j < |h|
  {
    var b := h[|h| - 1][s];
    if j == 0 then b else Walk(h[..|h| - 1], b / 4, j - 1)
  }

  lemma OwnAncestor(m0: bias, g: gain, k: nat, t: state)
    ensures Ancestor(m0, g, k, k, t) == t
  {
  }

  lemma LastWindow(m0: bias, g: gain, h: seq<row>, s: state)
    requires |h| > 1 && IsHistory(m0, g, h)
    ensures var c := |h| - 1;
            IsHistory(m0, g, h[..c]) && h[c][s] == PathBits(m0, g, StoreTime(c - 1), StoreTime(c), s)
  {
    hide PathBits;
    assert IsWindow(m0, g, |h| - 1, h[|h| - 1]);
  }

  lemma WalkStep(h: seq<row>, s: state, j: nat)
    requires j < |h|
    ensures Walk(h, s, j) == if j == 0 then h[|h| - 1][s] else Walk(h[..|h| - 1], h[|h| - 1][s] / 4, j - 1)
  {
  }

  /** The walk follows the survivor of s. */
  lemma {:induction false} WalkFollowsSurvivor(m0: bias, g: gain, h: seq<row>, s: state, j: nat)
    requires j + 1 < |h|
    requires IsHistory(m0, g, h)
    ensures var w := StoreTime(|h| - 2 - j);
            Walk(h, s, j) == PathBits(m0, g, w, w + 8, Ancestor(m0, g, w + 8, StoreTime(|h| - 1), s))
  {
    hide Survivor, PathBits, Ancestor, IsHistory, Walk;
    var c := |h| - 1;
    var v := StoreTime(c - 1);
    LastWindow(m0, g, h, s);
    WalkStep(h, s, j);
    if j == 0 {
      OwnAncestor(m0, g, v + 8, s);
    } else {
      WindowByte(m0, g, v, s);
      var a := Ancestor(m0, g, v, v + 8, s);
      WalkFollowsSurvivor(m0, g, h[..c], a, j - 1);
      AncestorAncestor(m0, g, StoreTime(c - 1 - j) + 8, v, v + 8, s);
    }
  }

  /** Traceback soundness: walking n - 1 windows back from state s yields eight bits of the survivor of s. */
  lemma TracebackYieldsSurvivorBits(m0: bias, g: gain, h: seq<row>, s: state, n: nat)
    requires 0 < n < |h|
    requires IsHistory(m0, g, h)
    ensures var i := 8 * (|h| - 1 - n);
            Walk(h, s, n - 1) == Val(Survivor(m0, g, StoreTime(|h| - 1), s).bits[i..i + 8])
  {
    hide Survivor, Ancestor, PathBits, Walk, Val;
    var c := |h| - 1;
    var w := StoreTime(c - n);
    var a := Ancestor(m0, g, w + 8, StoreTime(c), s);
    WalkFollowsSurvivor(m0, g, h, s, n - 1);
    WindowByteIsSurvivor(m0, g, w, a);
    SurvivorPrefix(m0, g, w + 8, StoreTime(c), s);
    var u := Survivor(m0, g, StoreTime(c), s).bits;
    assert u[..w + 8][w - 6..w + 2] == u[w - 6..w + 2];
  }
}
