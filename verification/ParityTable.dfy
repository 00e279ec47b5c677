/** The parity table of the decoder: 256 entries, written as nested eighths. */
module ParityTable {
  import opened Bits
  import opened ConvolutionalCode

  const ROW_0: seq<bit> := [0, 1, 1, 0, 1, 0, 0, 1]
  const ROW_1: seq<bit> := [1, 0, 0, 1, 0, 1, 1, 0]

  const EIGHT_ROWS_0: seq<seq<bit>> := [ROW_0, ROW_1, ROW_1, ROW_0, ROW_1, ROW_0, ROW_0, ROW_1]
  const EIGHT_ROWS_1: seq<seq<bit>> := [ROW_1, ROW_0, ROW_0, ROW_1, ROW_0, ROW_1, ROW_1, ROW_0]

  /** Rows of eight entries, in the order of the table. */
  const PARTAB: seq<seq<bit>> := EIGHT_ROWS_0 + EIGHT_ROWS_1 + EIGHT_ROWS_1 + EIGHT_ROWS_0

  lemma SmallParity(x: nat)
    requires x < 8
    ensures Parity(x) == if x in {0, 3, 5, 6} then 0 else 1
  {
    assert Parity(1) == 1 && Parity(2) == 1 && Parity(3) == 0;
    ParityCons(x / 2, x % 2);
  }

  lemma RowsFollowParity(h: nat, d: nat)
    requires h < 4 && d < 8
    ensures PARTAB[8 * h + d] == if Plus(Parity(h), Parity(d)) == 0 then ROW_0 else ROW_1
  {
    hide Parity;
    SmallParity(h);
    SmallParity(d);
    assert PARTAB[8 * h + d] == (if h == 0 || h == 3 then EIGHT_ROWS_0 else EIGHT_ROWS_1)[d];
  }

  lemma BitwiseParity(h: nat, a: bit, b: bit, c: bit)
    ensures Parity(8 * h + 4 * (a as int) + 2 * (b as int) + c) == Plus(Parity(h), Plus(a, Plus(b, c)))
  {
    hide Parity;
    ParityCons(h, a);
    ParityCons(2 * h + a, b);
    ParityCons(4 * h + 2 * (a as int) + b, c);
  }

  lemma ParityOfOctal(h: nat, d: nat)
    requires d < 8
    ensures Parity(8 * h + d) == Plus(Parity(h), Parity(d))
  {
    hide Parity;
    var d1 := d / 2;
    var d2 := d1 / 2;
    BitwiseParity(h, d2, d1 % 2, d % 2);
    BitwiseParity(0, d2, d1 % 2, d % 2);
    SmallParity(0);
  }

  function Partab(x: nat): bit
    requires x < 256
  {
    PARTAB[x / 8][x % 8]
  }

  /** Every entry is the parity of its index. */
  lemma PartabIsParity(x: nat)
    requires x < 256
    ensures Partab(x) == Parity(x)
  {
    hide Parity;
    var r, d := x / 8, x % 8;
    RowsFollowParity(r / 8, r % 8);
    ParityOfOctal(r / 8, r % 8);
    ParityOfOctal(r, d);
    SmallParity(d);
  }
}
