/** Facts about products and quotients that the solver does not find by itself. */
module Arithmetic {
  lemma MultiplesGrow(q: nat, r: nat, d: nat)
    requires q <= r
    ensures q * d <= r * d
  {
    var e := r - q;
    assert r * d == q * d + e * d;
  }

  /** A multiple of d below another one leaves room for d. */
  lemma RoomFor(q: nat, k: nat, d: nat)
    requires q < k
    ensures q * d + d <= k * d
  {
    MultiplesGrow(q + 1, k, d);
    assert (q + 1) * d == q * d + d;
  }

  /** Different entries of a table with rows of d entries have different positions. */
  lemma RunsDiffer(d: nat, q: nat, h: nat, q': nat, h': nat)
    requires h < d && h' < d && (q != q' || h != h')
    ensures q * d + h != q' * d + h'
  {
    if q < q' {
      RoomFor(q, q', d);
    } else if q' < q {
      RoomFor(q', q, d);
    }
  }

  /** Quotient and remainder are unique. */
  lemma DivModUnique(i: nat, d: nat, q: nat, r: nat)
    requires i == q * d + r && r < d
    ensures i / d == q && i % d == r
  {
    var q', r' := i / d, i % d;
    assert i == q' * d + r';
    if q < q' {
      RoomFor(q, q', d);
    } else if q' < q {
      RoomFor(q', q, d);
    }
  }

  /** Counting up by one either stays in the same run of d or starts the next. */
  lemma DivModNext(i: nat, d: nat)
    requires d > 0
    ensures (i + 1) / d == if i % d + 1 == d then i / d + 1 else i / d
    ensures (i + 1) % d == if i % d + 1 == d then 0 else i % d + 1
  {
    var q, r := i / d, i % d;
    if r + 1 == d {
      assert (q + 1) * d == q * d + d;
      DivModUnique(i + 1, d, q + 1, 0);
    } else {
      DivModUnique(i + 1, d, q, r + 1);
    }
  }

  lemma ZeroDivMod(d: nat)
    requires d > 0
    ensures 0 / d == 0 && 0 % d == 0
  {
    DivModUnique(0, d, 0, 0);
  }

  lemma QuotientAtMost(x: nat, d: nat, k: nat)
    requires d > 0 && x < k * d + d
    ensures x / d <= k
  {
    var q := x / d;
    assert x == q * d + x % d && (k + 1) * d == k * d + d;
    if q > k {
      MultiplesGrow(k + 1, q, d);
      assert false;
    }
  }

  lemma QuotientAtLeast(x: nat, d: nat, k: nat)
    requires d > 0 && d * k <= x
    ensures k <= x / d
  {
    var q := x / d;
    assert x == q * d + x % d && k * d == d * k;
    if q < k {
      RoomFor(q, k, d);
      assert false;
    }
  }

  lemma QuotientBelow(k: nat, rows: nat, d: nat)
    requires d > 0 && k < rows * d
    ensures k / d < rows
  {
    var q := k / d;
    assert k == q * d + k % d;
    if q >= rows {
      MultiplesGrow(rows, q, d);
      assert false;
    }
  }
}
