/** Squaring by columns: the sum of the column products is the square. */
module Squares {
  import opened Powers
  import opened Bigits

  /** The cross product of row i that falls into column c. */
  function Cross(a: seq<bigit>, i: nat, c: nat): nat
    requires i < |a|
  {
    if i <= c < i + |a| then Product(a[i], a[c - i]) else 0
  }

  function Product(x: bigit, y: bigit): (p: nat)
    ensures p == x * y && p <= 0xffff_fffe_0000_0001
  {
    MulLe(0, x, y);
    MulLe(x, 0xffff_ffff, y);
    x * y
  }

  /** The contribution of the first r rows to column c. */
  function Column(a: seq<bigit>, r: nat, c: nat): (s: nat)
    requires r <= |a|
    ensures s <= r * 0xffff_fffe_0000_0001
  {
    if r == 0 then 0 else Column(a, r - 1, c) + Cross(a, r - 1, c)
  }

  /** The first k columns of the first r rows, each at its place. */
  ghost function Columns(a: seq<bigit>, r: nat, k: nat): nat
    requires r <= |a|
  {
    if k == 0 then 0 else Columns(a, r, k - 1) + Column(a, r, k - 1) * BasePow(k - 1)
  }

  ghost function Row(a: seq<bigit>, i: nat, k: nat): nat
    requires i < |a|
  {
    if k == 0 then 0 else Row(a, i, k - 1) + Cross(a, i, k - 1) * BasePow(k - 1)
  }

  /** Rows from r to q contribute nothing to column c. */
  lemma {:induction false} ColumnTail(a: seq<bigit>, r: nat, q: nat, c: nat)
    requires r <= q <= |a|
    requires c < r || q + |a| <= c + 1
    ensures Column(a, q, c) == Column(a, r, c)
  {
    if r < q {
      ColumnTail(a, r, q - 1, c);
    }
  }

  lemma {:induction false} AddRow(a: seq<bigit>, i: nat, k: nat)
    requires i < |a|
    ensures Columns(a, i + 1, k) == Columns(a, i, k) + Row(a, i, k)
  {
    if k > 0 {
      AddRow(a, i, k - 1);
      MulDist(Column(a, i, k - 1), Cross(a, i, k - 1), BasePow(k - 1));
    }
  }

  lemma {:induction false} RowBelow(a: seq<bigit>, i: nat, k: nat)
    requires i < |a| && k <= i
    ensures Row(a, i, k) == 0
  {
    if k > 0 {
      RowBelow(a, i, k - 1);
    }
  }

  lemma RowStep(p: int, x: int, v: int, q: int, y: int)
    ensures (p * x) * v + (x * y) * (p * q) == (p * x) * (v + q * y)
  {
    MulDist(v, q * y, p * x);
    MulInterchange(p, x, q, y);
  }

  /** Row i is the whole number, times bigit i at its place. */
  lemma {:induction false} RowValue(a: seq<bigit>, i: nat, k: nat)
    requires i < |a| && k <= |a|
    ensures Row(a, i, i + k) == (BasePow(i) * a[i]) * Value(a[..k])
  {
    if k == 0 {
      RowBelow(a, i, i);
    } else {
      RowValue(a, i, k - 1);
      ValuePrefix(a, k - 1);
      BaseAdd(i, k - 1);
      RowStep(BasePow(i), a[i], Value(a[..k - 1]), BasePow(k - 1), a[k - 1]);
    }
  }

  lemma {:induction false} RowAbove(a: seq<bigit>, i: nat, k: nat)
    requires i < |a| && i + |a| <= k
    ensures Row(a, i, k) == Row(a, i, i + |a|)
    decreases k
  {
    if i + |a| < k {
      RowAbove(a, i, k - 1);
    }
  }

  lemma WholeRow(a: seq<bigit>, i: nat)
    requires i < |a|
    ensures Row(a, i, 2 * |a|) == (BasePow(i) * a[i]) * Value(a)
  {
    RowAbove(a, i, 2 * |a|);
    RowValue(a, i, |a|);
    assert a[..|a|] == a;
  }

  lemma {:induction false} RowsValue(a: seq<bigit>, r: nat)
    requires r <= |a|
    ensures Columns(a, r, 2 * |a|) == Value(a[..r]) * Value(a)
  {
    if r == 0 {
      NoRows(a, 2 * |a|);
    } else {
      RowsValue(a, r - 1);
      AddRow(a, r - 1, 2 * |a|);
      WholeRow(a, r - 1);
      ValuePrefix(a, r - 1);
      MulDist(Value(a[..r - 1]), BasePow(r - 1) * a[r - 1], Value(a));
    }
  }

  lemma {:induction false} NoRows(a: seq<bigit>, k: nat)
    ensures Columns(a, 0, k) == 0
  {
    if k > 0 {
      NoRows(a, k - 1);
    }
  }

  /** All columns together are the square. */
  lemma SquareByColumns(a: seq<bigit>)
    ensures Columns(a, |a|, 2 * |a|) == Value(a) * Value(a)
  {
    RowsValue(a, |a|);
    assert a[..|a|] == a;
  }

  /** A square needs at most twice the bigits. */
  lemma SquareBound(a: seq<bigit>)
    ensures Value(a) * Value(a) < BasePow(2 * |a|)
  {
    ValueBound(a);
    BaseAdd(|a|, |a|);
    MulLe(Value(a), BasePow(|a|), Value(a));
    MulLt(Value(a), BasePow(|a|), BasePow(|a|));
  }
}
