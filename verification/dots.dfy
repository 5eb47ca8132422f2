/**
 * Grid dots: the row/column value object, its id arithmetic and the range-checked factories
 * `Dot.of(row, column)` and `Dot.of(id)`. The grid size (`sDotCount`) is a parameter `count`.
 */
module Dots {
  import opened Results
  import Decimal

  /** One position of the grid. Dots are values: the canonical instance table is value equality here. */
  datatype Dot = Dot(row: int, column: int)

  /** The exceptions the factories raise: IllegalArgumentException from the range check,
      ArithmeticException from an integer division by a zero grid size. */
  datatype Failure = OutOfRange | DivisionByZero

  /** Kotlin's `Int` division, which truncates toward zero (Dafny's `/` is Euclidean). */
  function TruncDiv(a: int, b: int): (q: int)
    requires b > 0
    ensures a >= 0 ==> q == a / b
    ensures a < 0 ==> q <= 0
  {
    if a >= 0 then a / b else -((-a) / b)
  }

  /** Kotlin's `Int` remainder: it has the sign of the dividend. */
  function TruncRem(a: int, b: int): (r: int)
    requires b > 0
    ensures a == b * TruncDiv(a, b) + r
    ensures -b < r < b
    ensures a >= 0 ==> r >= 0
    ensures a <= 0 ==> r <= 0
  {
    a - b * TruncDiv(a, b)
  }

  predicate InGrid(d: Dot, count: int) {
    0 <= d.row < count && 0 <= d.column < count
  }

  /** `Dot.id`: row-major index of the dot. */
  function Id(d: Dot, count: int): int {
    d.row * count + d.column
  }

  /** `Dot.of(row, column)`: `checkRange`, then the dot at that position of the grid. */
  function Of(row: int, column: int, count: int): (r: Result<Dot, Failure>)
    ensures r.Ok? <==> InGrid(Dot(row, column), count)
    ensures r.Ok? ==> r.value.row == row && r.value.column == column
    ensures r.Err? ==> r.error == OutOfRange
  {
    if 0 <= row <= count - 1 && 0 <= column <= count - 1 then Ok(Dot(row, column)) else Err(OutOfRange)
  }

  /** `Dot.of(id)`: truncating quotient and remainder by the grid size, then `Dot.of(row, column)`. */
  function OfId(id: int, count: nat): (r: Result<Dot, Failure>)
    ensures count == 0 ==> r == Err(DivisionByZero)
  {
    if count == 0 then Err(DivisionByZero) else Of(TruncDiv(id, count), TruncRem(id, count), count)
  }

  /** The id of an in-range dot is an index into the `count * count` cells. */
  lemma IdInRange(d: Dot, count: int)
    requires InGrid(d, count)
    ensures 0 <= Id(d, count) < count * count
  {
    assert d.row * count <= (count - 1) * count;
  }

  /** Two in-range dots with the same id are the same dot. */
  lemma IdInjective(a: Dot, b: Dot, count: int)
    requires InGrid(a, count) && InGrid(b, count)
    requires Id(a, count) == Id(b, count)
    ensures a == b
  {
    if a.row < b.row {
      MulMonotone(a.row + 1, b.row, count);
    } else if b.row < a.row {
      MulMonotone(b.row + 1, a.row, count);
    }
  }

  /** `Dot.of(d.id) == d` for every in-range dot. */
  lemma OfIdOfId(d: Dot, count: nat)
    requires InGrid(d, count)
    ensures OfId(Id(d, count), count) == Ok(d)
  {
    var id := Id(d, count);
    IdInRange(d, count);
    DivModUnique(id, count, d.row, d.column);
  }

  /** `Dot.of(i).id == i` for every index of the grid. */
  lemma IdOfOfId(id: int, count: nat)
    requires 0 <= id < count * count
    ensures OfId(id, count).Ok? && Id(OfId(id, count).value, count) == id
  {
    var q, r := id / count, id % count;
    assert id == q * count + r;
    if q >= count {
      MulMonotone(count, q, count);
    }
  }

  /** `Dot.of(id)` fails for every id outside `[0, count * count)`, negative ids included. */
  lemma OfIdRejects(id: int, count: nat)
    requires id < 0 || id >= count * count
    ensures OfId(id, count).Err?
  {
    if count > 0 && id >= 0 {
      var q, r := id / count, id % count;
      assert id == q * count + r;
      if q <= count - 1 {
        MulMonotone(q, count - 1, count);
      }
    }
  }

  lemma MulMonotone(x: int, y: int, k: int)
    requires x <= y && k >= 0
    ensures x * k <= y * k
  {
  }

  /** Quotient and remainder are determined by `a == q * b + r` with `0 <= r < b`. */
  lemma DivModUnique(a: int, b: int, q: int, r: int)
    requires b > 0 && 0 <= r < b && a == q * b + r
    ensures a / b == q && a % b == r
  {
    var q', r' := a / b, a % b;
    assert a == q' * b + r';
    if q < q' {
      MulMonotone(q + 1, q', b);
    } else if q' < q {
      MulMonotone(q' + 1, q, b);
    }
  }

  /** `toString`: "(Row = r, Col = c)". */
  function ToString(d: Dot): (s: string)
    ensures |s| >= |"(Row = , Col = )"| + 2
    ensures s[..7] == "(Row = " && s[|s| - 1] == ')'
  {
    "(Row = " + Decimal.IntToString(d.row) + ", Col = " + Decimal.IntToString(d.column) + ")"
  }

  /** Different dots render differently: the row's digits end at the first comma, so the row
      and the column can both be read back. */
  lemma ToStringInjective(a: Dot, b: Dot)
    requires ToString(a) == ToString(b)
    ensures a == b
  {
    var ra, ta := ToStringSplit(a);
    var rb, tb := ToStringSplit(b);
    NoComma(a.row);
    NoComma(b.row);
    SplitAtComma(ra, ta, rb, tb);
    ColumnTail(Decimal.IntToString(a.column));
    ColumnTail(Decimal.IntToString(b.column));
    Decimal.IntToStringInjective(a.row, b.row);
    Decimal.IntToStringInjective(a.column, b.column);
  }

  /** After the fixed opening, a rendering is the row's digits followed by the column part. */
  lemma ToStringSplit(d: Dot) returns (r: string, t: string)
    ensures r == Decimal.IntToString(d.row)
    ensures t == ", Col = " + Decimal.IntToString(d.column) + ")"
    ensures ToString(d)[7..] == r + t
  {
    r, t := Decimal.IntToString(d.row), ", Col = " + Decimal.IntToString(d.column) + ")";
    DropOpening("(Row = ", r, ", Col = ", Decimal.IntToString(d.column), ")");
  }

  lemma DropOpening(o: string, r: string, m: string, c: string, z: string)
    ensures ((((o + r) + m) + c) + z)[|o|..] == r + (m + c + z)
  {
  }

  /** The column part starts with a comma, and its column's digits sit between the fixed text
      and the closing parenthesis. */
  lemma ColumnTail(c: string)
    ensures var t := ", Col = " + c + ")"; |t| > 0 && t[0] == ',' && t[8..|t| - 1] == c
  {
  }

  /** An integer's rendering holds no comma. */
  lemma NoComma(i: int)
    ensures forall k :: 0 <= k < |Decimal.IntToString(i)| ==> Decimal.IntToString(i)[k] != ','
  {
    var s := Decimal.IntToString(i);
    if i < 0 {
      forall k | 0 < k < |s| ensures s[k] != ',' {
        assert s[k] == s[1..][k - 1];
      }
    }
  }

  /** Index of the first comma in `w`, or `|w|` when there is none. */
  function FirstComma(w: string): (k: nat)
    ensures k <= |w|
  {
    if w == [] || w[0] == ',' then 0 else 1 + FirstComma(w[1..])
  }

  /** A comma-free string followed by text that starts with a comma puts the first comma right
      after it. */
  lemma {:induction false} FirstCommaAfter(u: string, v: string)
    requires forall k :: 0 <= k < |u| ==> u[k] != ','
    requires |v| > 0 && v[0] == ','
    ensures FirstComma(u + v) == |u|
  {
    if u != [] {
      assert (u + v)[1..] == u[1..] + v;
      FirstCommaAfter(u[1..], v);
    }
  }

  /** Two comma-free strings, each followed by text that starts with a comma, split the same way. */
  lemma SplitAtComma(u: string, v: string, x: string, y: string)
    requires forall k :: 0 <= k < |u| ==> u[k] != ','
    requires forall k :: 0 <= k < |x| ==> x[k] != ','
    requires |v| > 0 && v[0] == ',' && |y| > 0 && y[0] == ','
    requires u + v == x + y
    ensures u == x && v == y
  {
    FirstCommaAfter(u, v);
    FirstCommaAfter(x, y);
    assert u == (u + v)[..|u|] && x == (x + y)[..|x|];
    assert v == (u + v)[|u|..] && y == (x + y)[|x|..];
  }

  lemma ToStringExample()
    ensures ToString(Dot(1, 2)) == "(Row = 1, Col = 2)"
    ensures ToString(Dot(0, -1)) == "(Row = 0, Col = -1)"
  {
  }
}
