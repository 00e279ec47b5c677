/** The 5/3 lifting wavelet: in-place lifting of the rows, de-interleaving and transposition, and its inverse. */
module Wavelet {
  import opened Arithmetic

  // ----- one row

  type row = x: seq<int> | 2 <= |x| && |x| % 2 == 0 witness [0, 0]

  /** An odd entry minus its prediction from the even neighbours; halving rounds down. */
  function Detail(x: row, j: nat): int
    requires j < |x| && j % 2 == 1
  {
    if j < |x| - 1 then x[j] - (x[j - 1] + x[j + 1]) / 2 else x[j] - x[j - 1]
  }

  /** An even entry updated by the details next to it. */
  function Approximation(x: row, j: nat): int
    requires j < |x| && j % 2 == 0
  {
    if j > 0 then x[j] + (Detail(x, j - 1) + Detail(x, j + 1)) / 4 else x[j] + Detail(x, 1) / 2
  }

  function Lifted(x: row): (y: row)
    ensures |y| == |x|
  {
    seq(|x|, j requires 0 <= j < |x| => if j % 2 == 1 then Detail(x, j) else Approximation(x, j))
  }

  /** An even entry without its update. */
  function EvenBack(y: row, j: nat): int
    requires j < |y| && j % 2 == 0
  {
    if j > 0 then y[j] - (y[j - 1] + y[j + 1]) / 4 else y[j] - y[1] / 2
  }

  /** An odd entry with its prediction added again. */
  function OddBack(y: row, j: nat): int
    requires j < |y| && j % 2 == 1
  {
    if j < |y| - 1 then y[j] + (EvenBack(y, j - 1) + EvenBack(y, j + 1)) / 2 else y[j] + EvenBack(y, j - 1)
  }

  function Unlifted(y: row): (x: row)
    ensures |x| == |y|
  {
    seq(|y|, j requires 0 <= j < |y| => if j % 2 == 1 then OddBack(y, j) else EvenBack(y, j))
  }

  /** Lifting is invertible, whatever the rounding. */
  lemma UnliftedOfLifted(x: row)
    ensures Unlifted(Lifted(x)) == x
  {
    var y := Lifted(x);
    forall j | 0 <= j < |x| && j % 2 == 0
      ensures EvenBack(y, j) == x[j]
    {
    }
    forall j | 0 <= j < |x|
      ensures Unlifted(y)[j] == x[j]
    {
      if j % 2 == 1 {
        assert EvenBack(y, j - 1) == x[j - 1];
        assert j < |x| - 1 ==> EvenBack(y, j + 1) == x[j + 1];
      }
    }
  }

  lemma LiftedOfUnlifted(y: row)
    ensures Lifted(Unlifted(y)) == y
  {
    var x := Unlifted(y);
    forall j | 0 <= j < |y|
      ensures Lifted(x)[j] == y[j]
    {
      if j % 2 == 1 {
        DetailOfUnlifted(y, j);
      } else {
        EvenOfUnlifted(y, j);
      }
    }
  }

  lemma EvenOfUnlifted(y: row, j: nat)
    requires j < |y| && j % 2 == 0
    ensures Lifted(Unlifted(y))[j] == y[j]
  {
    hide Detail;
    DetailOfUnlifted(y, j + 1);
    if j > 0 { DetailOfUnlifted(y, j - 1); }
  }

  lemma DetailOfUnlifted(y: row, j: nat)
    requires j < |y| && j % 2 == 1
    ensures Detail(Unlifted(y), j) == y[j]
  {
    hide EvenBack;
    var x := Unlifted(y);
    assert x[j - 1] == EvenBack(y, j - 1);
    assert j < |y| - 1 ==> x[j + 1] == EvenBack(y, j + 1);
  }

  /** Nothing outside the n entries from base on has changed. */
  twostate predicate OnlyRow(data: array<int>, base: nat, n: nat)
    reads data
  {
    forall m | 0 <= m < data.Length && !(base <= m < base + n) :: data[m] == old(data[m])
  }

  /** Every odd pixel becomes its distance from what its even neighbours let one expect. */
  method Predict(data: array<int>, base: nat, n: nat, ghost x: row)
    requires n == |x| && base + n <= data.Length
    requires forall m | base <= m < base + n :: data[m] == x[m - base]
    modifies data
    ensures forall m | base <= m < base + n ::
              data[m] == if (m - base) % 2 == 1 then Detail(x, m - base) else x[m - base]
    ensures OnlyRow(data, base, n)
  {
    var j := 1;
    while j < n - 1
      invariant 1 <= j <= n - 1 && j % 2 == 1
      invariant forall m | base <= m < base + n ::
                  data[m] == if (m - base) % 2 == 1 && m - base < j then Detail(x, m - base) else x[m - base]
      invariant OnlyRow(data, base, n)
    {
      var cur := base + j;
      data[cur] := data[cur] - (data[cur - 1] + data[cur + 1]) / 2;
      j := j + 2;
    }
    // no even pixel follows the last one
    var cur := base + n - 1;
    data[cur] := data[cur] - data[cur - 1];
  }

  /** Every even pixel is corrected by the details on either side. */
  method Update(data: array<int>, base: nat, n: nat, ghost x: row)
    requires n == |x| && base + n <= data.Length
    requires forall m | base <= m < base + n ::
              data[m] == if (m - base) % 2 == 1 then Detail(x, m - base) else x[m - base]
    modifies data
    ensures forall m | base <= m < base + n :: data[m] == Lifted(x)[m - base]
    ensures OnlyRow(data, base, n)
  {
    hide Detail;
    var j := 2;
    while j < n
      invariant 2 <= j <= n && j % 2 == 0
      invariant forall m | base <= m < base + n ::
                  data[m] == if (m - base) % 2 == 1 then Detail(x, m - base)
                             else if 0 < m - base < j then Approximation(x, m - base) else x[m - base]
      invariant OnlyRow(data, base, n)
    {
      var cur := base + j;
      data[cur] := data[cur] + (data[cur - 1] + data[cur + 1]) / 4;
      j := j + 2;
    }
    // no detail precedes the first one
    data[base] := data[base] + data[base + 1] / 2;
  }

  /** Take the update of the even pixels back. */
  method UndoUpdate(data: array<int>, base: nat, n: nat, ghost y: row)
    requires n == |y| && base + n <= data.Length
    requires forall m | base <= m < base + n :: data[m] == y[m - base]
    modifies data
    ensures forall m | base <= m < base + n ::
              data[m] == if (m - base) % 2 == 0 then EvenBack(y, m - base) else y[m - base]
    ensures OnlyRow(data, base, n)
  {
    var j := 2;
    while j < n
      invariant 2 <= j <= n && j % 2 == 0
      invariant forall m | base <= m < base + n ::
                  data[m] == if (m - base) % 2 == 0 && 0 < m - base < j then EvenBack(y, m - base) else y[m - base]
      invariant OnlyRow(data, base, n)
    {
      var cur := base + j;
      data[cur] := data[cur] - (data[cur - 1] + data[cur + 1]) / 4;
      j := j + 2;
    }
    data[base] := data[base] - data[base + 1] / 2;
  }

  /** Take the prediction of the odd pixels back. */
  method UndoPredict(data: array<int>, base: nat, n: nat, ghost y: row)
    requires n == |y| && base + n <= data.Length
    requires forall m | base <= m < base + n ::
              data[m] == if (m - base) % 2 == 0 then EvenBack(y, m - base) else y[m - base]
    modifies data
    ensures forall m | base <= m < base + n :: data[m] == Unlifted(y)[m - base]
    ensures OnlyRow(data, base, n)
  {
    hide EvenBack;
    var j := 1;
    while j < n - 1
      invariant 1 <= j <= n - 1 && j % 2 == 1
      invariant forall m | base <= m < base + n ::
                  data[m] == if (m - base) % 2 == 0 then EvenBack(y, m - base)
                             else if m - base < j then OddBack(y, m - base) else y[m - base]
      invariant OnlyRow(data, base, n)
    {
      var cur := base + j;
      data[cur] := data[cur] + (data[cur - 1] + data[cur + 1]) / 2;
      j := j + 2;
    }
    var cur := base + n - 1;
    data[cur] := data[cur] + data[cur - 1];
  }

  // ----- whole images, row by row and transposed

  /** An image dimension the lifting works on. */
  predicate IsSide(n: nat) {
    2 <= n && n % 2 == 0
  }

  /** A table of rows rows with cols entries each. */
  predicate IsTable(m: seq<seq<int>>, rows: nat, cols: nat) {
    |m| == rows && forall r | 0 <= r < rows :: |m[r]| == cols
  }

  /** The lifted entry that ends up in column c: low-frequency entries first, high-frequency ones after them. */
  function Source(c: nat, n: nat): (j: nat)
    requires IsSide(n) && c < n
    ensures j < n
  {
    if c < n / 2 then 2 * c else 2 * (c - n / 2) + 1
  }

  /** The column in which lifted entry j ends up. */
  function Target(j: nat, n: nat): (c: nat)
    requires IsSide(n) && j < n
    ensures c < n && Source(c, n) == j
  {
    if j % 2 == 0 then j / 2 else j / 2 + n / 2
  }

  lemma TargetOfSource(c: nat, n: nat)
    requires IsSide(n) && c < n
    ensures Target(Source(c, n), n) == c
  {
    if c >= n / 2 {
      var d := c - n / 2;
      assert (2 * d + 1) / 2 == d && (2 * d + 1) % 2 == 1;
    }
  }

  /** Every row lifted and split into its two bands; the result is transposed. */
  function Forward(m: seq<seq<int>>, rows: nat, cols: nat): (t: seq<seq<int>>)
    requires IsTable(m, rows, cols) && IsSide(cols)
    ensures IsTable(t, cols, rows)
  {
    seq(cols, c requires 0 <= c < cols =>
      seq(rows, i requires 0 <= i < rows => Lifted(m[i])[Source(c, cols)]))
  }

  /** Column i of the transposed bands, merged into one lifted row again. */
  function Merged(t: seq<seq<int>>, rows: nat, cols: nat, i: nat): (y: row)
    requires IsTable(t, cols, rows) && IsSide(cols) && i < rows
    ensures |y| == cols
  {
    seq(cols, j requires 0 <= j < cols => t[Target(j, cols)][i])
  }

  /** The bands merged, transposed back, and every row unlifted. */
  function Inverse(t: seq<seq<int>>, rows: nat, cols: nat): (m: seq<seq<int>>)
    requires IsTable(t, cols, rows) && IsSide(cols)
    ensures IsTable(m, rows, cols)
  {
    seq(rows, i requires 0 <= i < rows => Unlifted(Merged(t, rows, cols, i)))
  }

  /** The inverse row pass undoes the forward row pass. */
  lemma InverseOfForward(m: seq<seq<int>>, rows: nat, cols: nat)
    requires IsTable(m, rows, cols) && IsSide(cols)
    ensures Inverse(Forward(m, rows, cols), rows, cols) == m
  {
    hide Lifted, Unlifted, Target, Source;
    var t := Forward(m, rows, cols);
    forall i | 0 <= i < rows
      ensures Inverse(t, rows, cols)[i] == m[i]
    {
      assert Merged(t, rows, cols, i) == Lifted(m[i]);
      UnliftedOfLifted(m[i]);
    }
  }

  /** And the other way round. */
  lemma ForwardOfInverse(t: seq<seq<int>>, rows: nat, cols: nat)
    requires IsTable(t, cols, rows) && IsSide(cols)
    ensures Forward(Inverse(t, rows, cols), rows, cols) == t
  {
    hide Lifted, Unlifted, Target, Source;
    var m := Inverse(t, rows, cols);
    forall c | 0 <= c < cols
      ensures Forward(m, rows, cols)[c] == t[c]
    {
      forall i | 0 <= i < rows
        ensures Forward(m, rows, cols)[c][i] == t[c][i]
      {
        LiftedOfUnlifted(Merged(t, rows, cols, i));
        TargetOfSource(c, cols);
      }
    }
  }

  /** Rows, then columns. */
  function Transform(m: seq<seq<int>>, rows: nat, cols: nat): (t: seq<seq<int>>)
    requires IsTable(m, rows, cols) && IsSide(rows) && IsSide(cols)
    ensures IsTable(t, rows, cols)
  {
    Forward(Forward(m, rows, cols), cols, rows)
  }

  function Reconstruct(t: seq<seq<int>>, rows: nat, cols: nat): (m: seq<seq<int>>)
    requires IsTable(t, rows, cols) && IsSide(rows) && IsSide(cols)
    ensures IsTable(m, rows, cols)
  {
    Inverse(Inverse(t, cols, rows), rows, cols)
  }

  /** Perfect reconstruction: the inverse transform restores every pixel, and so does the transform after it. */
  lemma PerfectReconstruction(m: seq<seq<int>>, rows: nat, cols: nat)
    requires IsTable(m, rows, cols) && IsSide(rows) && IsSide(cols)
    ensures Reconstruct(Transform(m, rows, cols), rows, cols) == m
    ensures Transform(Reconstruct(m, rows, cols), rows, cols) == m
  {
    hide Forward, Inverse;
    InverseOfForward(Forward(m, rows, cols), cols, rows);
    InverseOfForward(m, rows, cols);
    ForwardOfInverse(Inverse(m, cols, rows), rows, cols);
    ForwardOfInverse(m, cols, rows);
  }

  // ----- the 5/3 wavelet, in the pixels themselves

  /** High-frequency entry c of row i: an odd pixel less the mean of its two neighbours, or of the one there is. */
  predicate IsHighEntry(x: seq<seq<int>>, t: seq<seq<int>>, rows: nat, cols: nat, i: nat, c: nat)
    requires IsTable(x, rows, cols) && IsTable(t, cols, rows) && IsSide(cols) && i < rows && c < cols / 2
  {
    t[cols / 2 + c][i] ==
    x[i][2 * c + 1] - if 2 * c + 2 < cols then (x[i][2 * c] + x[i][2 * c + 2]) / 2 else x[i][2 * c]
  }

  /** Low-frequency entry c of row i: an even pixel plus half the mean of the high entries next to it. */
  predicate IsLowEntry(x: seq<seq<int>>, t: seq<seq<int>>, rows: nat, cols: nat, i: nat, c: nat)
    requires IsTable(x, rows, cols) && IsTable(t, cols, rows) && IsSide(cols) && i < rows && c < cols / 2
  {
    t[c][i] ==
    x[i][2 * c] + if c > 0 then (t[cols / 2 + c - 1][i] + t[cols / 2 + c][i]) / 4 else t[cols / 2][i] / 2
  }

  /** t holds the two bands of the rows of x, the low one above the high one, as columns. */
  ghost predicate AreBands(x: seq<seq<int>>, t: seq<seq<int>>, rows: nat, cols: nat)
    requires IsSide(cols)
  {
    && IsTable(x, rows, cols) && IsTable(t, cols, rows)
    && forall i, c | 0 <= i < rows && 0 <= c < cols / 2 ::
         IsHighEntry(x, t, rows, cols, i, c) && IsLowEntry(x, t, rows, cols, i, c)
  }

  lemma BandColumns(c: nat, cols: nat)
    requires IsSide(cols) && c < cols / 2
    ensures Source(c, cols) == 2 * c && Source(cols / 2 + c, cols) == 2 * c + 1
  {
  }

  lemma ForwardEntries(m: seq<seq<int>>, rows: nat, cols: nat, i: nat, c: nat)
    requires IsTable(m, rows, cols) && IsSide(cols) && i < rows && c < cols / 2
    ensures Forward(m, rows, cols)[cols / 2 + c][i] == Lifted(m[i])[2 * c + 1]
    ensures Forward(m, rows, cols)[c][i] == Lifted(m[i])[2 * c]
  {
    hide Lifted;
    BandColumns(c, cols);
  }

  lemma LiftedEntries(x: row, c: nat)
    requires c < |x| / 2
    ensures Lifted(x)[2 * c + 1] ==
            x[2 * c + 1] - if 2 * c + 2 < |x| then (x[2 * c] + x[2 * c + 2]) / 2 else x[2 * c]
    ensures Lifted(x)[2 * c] ==
            x[2 * c] + if c > 0 then (Lifted(x)[2 * c - 1] + Lifted(x)[2 * c + 1]) / 4 else Lifted(x)[1] / 2
  {
  }

  /** The forward pass makes these bands. */
  lemma ForwardIsBands(m: seq<seq<int>>, rows: nat, cols: nat)
    requires IsTable(m, rows, cols) && IsSide(cols)
    ensures AreBands(m, Forward(m, rows, cols), rows, cols)
  {
    hide Lifted, Forward;
    var t := Forward(m, rows, cols);
    forall i, c | 0 <= i < rows && 0 <= c < cols / 2
      ensures IsHighEntry(m, t, rows, cols, i, c) && IsLowEntry(m, t, rows, cols, i, c)
    {
      ForwardEntries(m, rows, cols, i, c);
      ForwardEntries(m, rows, cols, i, 0);
      if c > 0 { ForwardEntries(m, rows, cols, i, c - 1); }
      LiftedEntries(m[i], c);
    }
  }

  /** And the bands determine the image. */
  lemma BandsAreForward(m: seq<seq<int>>, t: seq<seq<int>>, rows: nat, cols: nat)
    requires IsSide(cols) && AreBands(m, t, rows, cols)
    ensures t == Forward(m, rows, cols)
  {
    hide Forward;
    var f := Forward(m, rows, cols);
    ForwardIsBands(m, rows, cols);
    forall r | 0 <= r < cols
      ensures t[r] == f[r]
    {
      forall i | 0 <= i < rows
        ensures t[r][i] == f[r][i]
      {
        EqualEntries(m, t, f, rows, cols, i, if r < cols / 2 then r else r - cols / 2);
      }
    }
  }

  lemma EqualEntries(x: seq<seq<int>>, t: seq<seq<int>>, f: seq<seq<int>>, rows: nat, cols: nat, i: nat, c: nat)
    requires IsSide(cols) && AreBands(x, t, rows, cols) && AreBands(x, f, rows, cols) && i < rows && c < cols / 2
    ensures t[c][i] == f[c][i] && t[cols / 2 + c][i] == f[cols / 2 + c][i]
  {
    assert IsHighEntry(x, t, rows, cols, i, c) && IsHighEntry(x, f, rows, cols, i, c);
    assert IsLowEntry(x, t, rows, cols, i, c) && IsLowEntry(x, f, rows, cols, i, c);
    assert IsHighEntry(x, t, rows, cols, i, 0) && IsHighEntry(x, f, rows, cols, i, 0);
    if c > 0 {
      assert IsHighEntry(x, t, rows, cols, i, c - 1) && IsHighEntry(x, f, rows, cols, i, c - 1);
    }
  }

  /** A row that rises evenly has no detail but at its end. */
  lemma EvenSlopeHasNoDetail(x: seq<seq<int>>, t: seq<seq<int>>, rows: nat, cols: nat, i: nat, a: int, slope: int)
    requires IsSide(cols) && AreBands(x, t, rows, cols) && i < rows
    requires forall j | 0 <= j < cols :: x[i][j] == a + slope * j
    ensures forall r | cols / 2 <= r < cols :: t[r][i] == if r < cols - 1 then 0 else slope
  {
    forall r | cols / 2 <= r < cols
      ensures t[r][i] == if r < cols - 1 then 0 else slope
    {
      var c := r - cols / 2;
      assert IsHighEntry(x, t, rows, cols, i, c);
      assert x[i][2 * c] == a + slope * (2 * c) && x[i][2 * c + 1] == a + slope * (2 * c + 1);
      assert 2 * c + 2 < cols ==> x[i][2 * c + 2] == a + slope * (2 * c + 2);
      MeanOfSlope(a, slope, c);
    }
  }

  lemma MeanOfSlope(a: int, slope: int, c: nat)
    ensures ((a + slope * (2 * c)) + (a + slope * (2 * c + 2))) / 2 == a + slope * (2 * c + 1)
    ensures a + slope * (2 * c + 1) - (a + slope * (2 * c)) == slope
  {
    var b := slope * c;
    assert slope * (2 * c) == 2 * b && slope * (2 * c + 1) == 2 * b + slope && slope * (2 * c + 2) == 2 * b + 2 * slope;
    assert (2 * (a + 2 * b + slope)) / 2 == a + 2 * b + slope;
  }

  /** A row of one value keeps it in the low band and has nothing in the high one. */
  lemma ConstantRow(x: seq<seq<int>>, t: seq<seq<int>>, rows: nat, cols: nat, i: nat, v: int)
    requires IsSide(cols) && AreBands(x, t, rows, cols) && i < rows
    requires forall j | 0 <= j < cols :: x[i][j] == v
    ensures forall c | 0 <= c < cols :: t[c][i] == if c < cols / 2 then v else 0
  {
    forall r | cols / 2 <= r < cols
      ensures t[r][i] == 0
    {
      assert IsHighEntry(x, t, rows, cols, i, r - cols / 2);
    }
    forall c | 0 <= c < cols / 2
      ensures t[c][i] == v
    {
      assert IsLowEntry(x, t, rows, cols, i, c);
    }
  }

  /** A constant image keeps its value in the quarter that is low in both directions; everything else is zero. */
  lemma ConstantImage(x: seq<seq<int>>, halfway: seq<seq<int>>, y: seq<seq<int>>, rows: nat, cols: nat, v: int)
    requires IsSide(rows) && IsSide(cols) && AreBands(x, halfway, rows, cols) && AreBands(halfway, y, cols, rows)
    requires forall i, j | 0 <= i < rows && 0 <= j < cols :: x[i][j] == v
    ensures forall i, j | 0 <= i < rows && 0 <= j < cols :: y[i][j] == if i < rows / 2 && j < cols / 2 then v else 0
  {
    forall i, j | 0 <= i < rows && 0 <= j < cols
      ensures halfway[j][i] == if j < cols / 2 then v else 0
    {
      ConstantRow(x, halfway, rows, cols, i, v);
    }
    forall i, j | 0 <= i < rows && 0 <= j < cols
      ensures y[i][j] == if i < rows / 2 && j < cols / 2 then v else 0
    {
      ConstantRow(halfway, y, cols, rows, j, if j < cols / 2 then v else 0);
    }
  }

  /** Raising an odd pixel away from both ends by four raises its detail by four and both even neighbours by one. */
  lemma DetailSpreads(x: seq<seq<int>>, t: seq<seq<int>>, x': seq<seq<int>>, t': seq<seq<int>>,
                      rows: nat, cols: nat, i: nat, c: nat)
    requires IsSide(cols) && AreBands(x, t, rows, cols) && AreBands(x', t', rows, cols)
    requires i < rows && 0 < c && 2 * c + 2 < cols && x'[i] == x[i][2 * c + 1 := x[i][2 * c + 1] + 4]
    ensures t'[cols / 2 + c][i] == t[cols / 2 + c][i] + 4
    ensures t'[c][i] == t[c][i] + 1 && t'[c + 1][i] == t[c + 1][i] + 1
    ensures forall r | 0 <= r < cols && r !in {c, c + 1, cols / 2 + c} :: t'[r][i] == t[r][i]
  {
    var h := cols / 2;
    forall r | h <= r < cols
      ensures t'[r][i] == t[r][i] + if r == h + c then 4 else 0
    {
      assert IsHighEntry(x, t, rows, cols, i, r - h) && IsHighEntry(x', t', rows, cols, i, r - h);
    }
    forall d | 0 <= d < h
      ensures t'[d][i] == t[d][i] + if d == c || d == c + 1 then 1 else 0
    {
      assert IsLowEntry(x, t, rows, cols, i, d) && IsLowEntry(x', t', rows, cols, i, d);
    }
  }

  // ----- tables in row-major arrays

  /** Entry (r, c) of a row-major table with cols columns. */
  function At(m: seq<int>, cols: nat, r: nat, c: nat): int {
    if r * cols + c < |m| then m[r * cols + c] else 0
  }

  function RowAt(m: seq<int>, cols: nat, r: nat): (x: seq<int>)
    ensures |x| == cols
  {
    seq(cols, c requires 0 <= c < cols => At(m, cols, r, c))
  }

  function Table(m: seq<int>, rows: nat, cols: nat): (t: seq<seq<int>>)
    ensures IsTable(t, rows, cols)
  {
    seq(rows, r requires 0 <= r < rows => RowAt(m, cols, r))
  }

  /** Row after row. */
  lemma TableEntry(m: seq<int>, rows: nat, cols: nat, r: nat, c: nat)
    requires |m| == rows * cols && r < rows && c < cols
    ensures r * cols + c < |m| && Table(m, rows, cols)[r][c] == m[r * cols + c]
  {
    RoomFor(r, rows, cols);
  }

  /** The table determines the array. */
  lemma TableDeterminesArray(a: seq<int>, b: seq<int>, rows: nat, cols: nat)
    requires |a| == |b| == rows * cols && cols > 0 && Table(a, rows, cols) == Table(b, rows, cols)
    ensures a == b
  {
    forall k | 0 <= k < |a|
      ensures a[k] == b[k]
    {
      var r, c := k / cols, k % cols;
      QuotientBelow(k, rows, cols);
      assert k == r * cols + c;
      assert Table(a, rows, cols)[r][c] == Table(b, rows, cols)[r][c];
    }
  }

  // ----- the row passes of the source

  /** Stores one table entry and leaves every other entry as it was. */
  method Put(m: array<int>, rows: nat, cols: nat, r: nat, c: nat, v: int)
    requires m.Length == rows * cols && r < rows && c < cols
    modifies m
    ensures forall i, j | 0 <= i < rows && 0 <= j < cols ::
              At(m[..], cols, i, j) == if i == r && j == c then v else old(At(m[..], cols, i, j))
  {
    RoomFor(r, rows, cols);
    ghost var before := m[..];
    m[r * cols + c] := v;
    forall i, j | 0 <= i < rows && 0 <= j < cols
      ensures At(m[..], cols, i, j) == if i == r && j == c then v else At(before, cols, i, j)
    {
      if i != r || j != c {
        RunsDiffer(cols, i, j, r, c);
      }
    }
  }

  method Get(m: array<int>, rows: nat, cols: nat, r: nat, c: nat) returns (v: int)
    requires m.Length == rows * cols && r < rows && c < cols
    ensures v == At(m[..], cols, r, c)
  {
    RoomFor(r, rows, cols);
    v := m[r * cols + c];
  }

  /** Writes lifted row i of data into column i of data2, one band after the other. */
  method Scatter(data: array<int>, data2: array<int>, rows: nat, cols: nat, i: nat)
    requires data != data2 && data.Length == data2.Length == rows * cols && i < rows && IsSide(cols)
    modifies data2
    ensures forall c, r | 0 <= c < cols && 0 <= r < rows ::
              At(data2[..], rows, c, r) == if r == i then At(data[..], cols, i, Source(c, cols))
                                           else old(At(data2[..], rows, c, r))
  {
    hide At;
    assert cols * rows == rows * cols;
    ghost var before := data2[..];
    for j := 0 to cols / 2
      invariant forall c, r | 0 <= c < cols && 0 <= r < rows ::
                  At(data2[..], rows, c, r) ==
                  if r == i && (c < j || cols / 2 <= c < cols / 2 + j) then At(data[..], cols, i, Source(c, cols))
                  else At(before, rows, c, r)
    {
      var low := Get(data, rows, cols, i, 2 * j);
      Put(data2, cols, rows, j, i, low);
      var high := Get(data, rows, cols, i, 2 * j + 1);
      Put(data2, cols, rows, j + cols / 2, i, high);
    }
  }

  /** Reads column i of data, one band after the other, into row i of data2. */
  method Gather(data: array<int>, data2: array<int>, rows: nat, cols: nat, i: nat)
    requires data != data2 && data.Length == data2.Length == rows * cols && i < rows && IsSide(cols)
    modifies data2
    ensures RowAt(data2[..], cols, i) == Merged(Table(data[..], cols, rows), rows, cols, i)
    ensures forall r | 0 <= r < rows && r != i :: RowAt(data2[..], cols, r) == old(RowAt(data2[..], cols, r))
  {
    hide At;
    assert cols * rows == rows * cols;
    ghost var before := data2[..];
    for j := 0 to cols / 2
      invariant forall r, c | 0 <= r < rows && 0 <= c < cols ::
                  At(data2[..], cols, r, c) ==
                  if r == i && c < 2 * j then At(data[..], rows, Target(c, cols), i) else At(before, cols, r, c)
    {
      var low := Get(data, cols, rows, j, i);
      Put(data2, rows, cols, i, 2 * j, low);
      var high := Get(data, cols, rows, j + cols / 2, i);
      Put(data2, rows, cols, i, 2 * j + 1, high);
    }
  }

  /** Lifts row i of the image in place. */
  method LiftRow(data: array<int>, rows: nat, cols: nat, i: nat)
    requires data.Length == rows * cols && i < rows && IsSide(cols)
    modifies data
    ensures RowAt(data[..], cols, i) == Lifted(old(RowAt(data[..], cols, i)))
    ensures forall r | 0 <= r < rows && r != i :: RowAt(data[..], cols, r) == old(RowAt(data[..], cols, r))
  {
    hide Lifted, Detail;
    RoomFor(i, rows, cols);
    ghost var before := data[..];
    ghost var x := RowAt(before, cols, i);
    Predict(data, i * cols, cols, x);
    Update(data, i * cols, cols, x);
    OtherRowsKept(before, data[..], rows, cols, i);
  }

  /** Undoes the lifting of row i in place. */
  method UnliftRow(data: array<int>, rows: nat, cols: nat, i: nat)
    requires data.Length == rows * cols && i < rows && IsSide(cols)
    modifies data
    ensures RowAt(data[..], cols, i) == Unlifted(old(RowAt(data[..], cols, i)))
    ensures forall r | 0 <= r < rows && r != i :: RowAt(data[..], cols, r) == old(RowAt(data[..], cols, r))
  {
    hide Unlifted, EvenBack;
    RoomFor(i, rows, cols);
    ghost var before := data[..];
    ghost var y := RowAt(before, cols, i);
    UndoUpdate(data, i * cols, cols, y);
    UndoPredict(data, i * cols, cols, y);
    OtherRowsKept(before, data[..], rows, cols, i);
  }

  lemma OtherRowsKept(a: seq<int>, b: seq<int>, rows: nat, cols: nat, i: nat)
    requires |a| == |b| == rows * cols && IsSide(cols) && i < rows
    requires forall m | 0 <= m < |a| && !(i * cols <= m < i * cols + cols) :: b[m] == a[m]
    ensures forall r | 0 <= r < rows && r != i :: RowAt(b, cols, r) == RowAt(a, cols, r)
  {
    forall r | 0 <= r < rows && r != i
      ensures RowAt(b, cols, r) == RowAt(a, cols, r)
    {
      RoomFor(r, rows, cols);
      if r < i {
        RoomFor(r, i, cols);
      } else {
        RoomFor(i, r, cols);
      }
    }
  }

  /** The forward pass over all rows: data2 receives the transposed bands, data keeps the lifted rows. */
  method RowTranspose(data: array<int>, data2: array<int>, rows: nat, cols: nat)
    requires data != data2 && data.Length == data2.Length == rows * cols && IsSide(cols)
    modifies data, data2
    ensures AreBands(old(Table(data[..], rows, cols)), Table(data2[..], cols, rows), rows, cols)
    ensures Table(data2[..], cols, rows) == Forward(old(Table(data[..], rows, cols)), rows, cols)
    ensures forall i | 0 <= i < rows :: RowAt(data[..], cols, i) == Lifted(old(RowAt(data[..], cols, i)))
  {
    hide Lifted, Source, At, AreBands;
    ghost var x := data[..];
    for i := 0 to rows
      invariant forall r | 0 <= r < rows ::
                  RowAt(data[..], cols, r) == if r < i then Lifted(RowAt(x, cols, r)) else RowAt(x, cols, r)
      invariant forall c, r | 0 <= c < cols && 0 <= r < i ::
                  At(data2[..], rows, c, r) == Lifted(RowAt(x, cols, r))[Source(c, cols)]
    {
      LiftRow(data, rows, cols, i);
      Scatter(data, data2, rows, cols, i);
      RowEntries(data[..], cols, i);
    }
    forall c | 0 <= c < cols
      ensures RowAt(data2[..], rows, c) == Forward(Table(x, rows, cols), rows, cols)[c]
    {
    }
    ghost var t := Table(x, rows, cols);
    assert Table(data2[..], cols, rows) == Forward(t, rows, cols);
    ForwardIsBands(t, rows, cols);
  }

  lemma RowEntries(m: seq<int>, cols: nat, i: nat)
    ensures forall c | 0 <= c < cols :: RowAt(m, cols, i)[c] == At(m, cols, i, c)
  {
  }

  /** The inverse pass over all rows: data2 receives the restored rows, data is not touched. */
  method RowTransposeInverse(data: array<int>, data2: array<int>, rows: nat, cols: nat)
    requires data != data2 && data.Length == data2.Length == rows * cols && IsSide(cols)
    modifies data2
    ensures AreBands(Table(data2[..], rows, cols), Table(data[..], cols, rows), rows, cols)
    ensures Table(data2[..], rows, cols) == Inverse(Table(data[..], cols, rows), rows, cols)
  {
    hide Unlifted, Merged, At, RowAt;
    ghost var t := Table(data[..], cols, rows);
    for i := 0 to rows
      invariant forall r | 0 <= r < i :: RowAt(data2[..], cols, r) == Unlifted(Merged(t, rows, cols, r))
    {
      Gather(data, data2, rows, cols, i);
      UnliftRow(data2, rows, cols, i);
    }
    InverseHasBands(t, Table(data2[..], rows, cols), rows, cols);
  }

  /** The inverse pass restores the rows that have these bands. */
  lemma InverseHasBands(t: seq<seq<int>>, m: seq<seq<int>>, rows: nat, cols: nat)
    requires IsTable(t, cols, rows) && IsSide(cols) && m == Inverse(t, rows, cols)
    ensures AreBands(m, t, rows, cols)
  {
    hide Forward, Inverse;
    ForwardOfInverse(t, rows, cols);
    ForwardIsBands(m, rows, cols);
  }

  /** The two-dimensional transform: rows first, then the columns, which the first pass made rows. */
  method Dwt53(data: array<int>, rows: nat, cols: nat) returns (ghost halfway: seq<seq<int>>)
    requires IsSide(rows) && IsSide(cols) && data.Length == rows * cols
    modifies data
    ensures AreBands(old(Table(data[..], rows, cols)), halfway, rows, cols)
    ensures AreBands(halfway, Table(data[..], rows, cols), cols, rows)
    ensures Table(data[..], rows, cols) == Transform(old(Table(data[..], rows, cols)), rows, cols)
  {
    hide Forward, Table, AreBands;
    assert cols * rows == rows * cols;
    var data2 := new int[rows * cols](_ => 0);
    RowTranspose(data, data2, rows, cols);
    halfway := Table(data2[..], cols, rows);
    RowTranspose(data2, data, cols, rows);
  }

  /** The image whose transform is given: columns first, then rows. */
  method Dwt53Inverse(data: array<int>, rows: nat, cols: nat) returns (ghost halfway: seq<seq<int>>)
    requires IsSide(rows) && IsSide(cols) && data.Length == rows * cols
    modifies data
    ensures AreBands(halfway, old(Table(data[..], rows, cols)), cols, rows)
    ensures AreBands(Table(data[..], rows, cols), halfway, rows, cols)
    ensures Table(data[..], rows, cols) == Reconstruct(old(Table(data[..], rows, cols)), rows, cols)
  {
    hide Inverse, Table, AreBands;
    assert cols * rows == rows * cols;
    var data2 := new int[rows * cols](_ => 0);
    RowTransposeInverse(data, data2, cols, rows);
    halfway := Table(data2[..], cols, rows);
    RowTransposeInverse(data2, data, rows, cols);
  }

  /** Transforming an image and transforming it back restores every pixel. */
  method TransformAndBack(data: array<int>, rows: nat, cols: nat)
    requires IsSide(rows) && IsSide(cols) && data.Length == rows * cols
    modifies data
    ensures data[..] == old(data[..])
  {
    hide Transform, Reconstruct, Table, AreBands;
    ghost var x := data[..];
    PerfectReconstruction(Table(x, rows, cols), rows, cols);
    ghost var halfway := Dwt53(data, rows, cols);
    halfway := Dwt53Inverse(data, rows, cols);
    TableDeterminesArray(data[..], x, rows, cols);
  }
}
