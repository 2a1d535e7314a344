/** The few facts about products and quotients that the index arithmetic of the model rests on. */
module Arith {

  lemma MulMonotone(d: nat, a: int, b: int)
    requires a <= b
    ensures d * a <= d * b
  {
  }

  lemma MulSuccessor(d: int, a: int)
    ensures d * (a + 1) == d * a + d
  {
  }

  lemma DivideUnique(n: int, d: nat, q: int, r: int)
    requires 0 <= r < d && n == d * q + r
    ensures n / d == q && n % d == r
  {
    var q', r' := n / d, n % d;
    assert n == d * q' + r' && 0 <= r' < d;
    if q < q' {
      MulMonotone(d, q + 1, q');
      MulSuccessor(d, q);
      assert false;
    } else if q' < q {
      MulMonotone(d, q' + 1, q);
      MulSuccessor(d, q');
      assert false;
    }
  }

  lemma DivideByProduct(n: nat, d: nat, e: nat)
    requires d > 0 && e > 0
    ensures d * e > 0 && n / d / e == n / (d * e)
  {
    var q, r := n / d, n % d;
    var h, b := q / e, q % e;
    MulMonotone(d, b + 1, e);
    MulSuccessor(d, b);
    calc {
      n;
      d * q + r;
      d * (e * h + b) + r;
      { Distribute(d, e * h, b); }
      d * (e * h) + d * b + r;
      { Reassociate(d, e, h); }
      (d * e) * h + (d * b + r);
    }
    MulMonotone(d, 0, b);
    DivideUnique(n, d * e, h, d * b + r);
  }

  lemma Distribute(d: int, a: int, b: int)
    ensures d * (a + b) == d * a + d * b
  {
  }

  lemma Reassociate(d: int, e: int, h: int)
    ensures d * (e * h) == (d * e) * h
  {
  }

  lemma Commute(a: int, b: int)
    ensures a * b == b * a
  {
  }

  lemma DivideAtLeast(n: int, d: int, q: int)
    requires d > 0 && q * d <= n
    ensures q <= n / d
  {
    if n / d < q {
      MulMonotone(d, n / d + 1, q);
      MulSuccessor(d, n / d);
      Commute(q, d);
      assert false;
    }
  }

  lemma DivideAtMost(n: int, d: int, q: int)
    requires d > 0 && n <= q * d
    ensures n / d <= q
  {
    var r := n - d * (n / d);
    assert 0 <= r < d;
    if q < n / d {
      MulMonotone(d, q + 1, n / d);
      MulSuccessor(d, q);
      Commute(q, d);
      assert false;
    }
  }

  /** A row and a column determine a place in a table of the given width. */
  lemma RowColumn(width: int, row: int, column: int, height: int)
    requires 0 <= column < width && 0 <= row < height
    ensures 0 <= row * width + column < height * width
    ensures (row * width + column) / width == row && (row * width + column) % width == column
  {
    Commute(row, width);
    Commute(height, width);
    MulMonotone(width, 0, row);
    MulMonotone(width, row + 1, height);
    MulSuccessor(width, row);
    DivideUnique(row * width + column, width, row, column);
  }

  lemma RowBelow(place: int, width: int, height: int)
    requires width > 0 && 0 <= place < width * height
    ensures 0 <= place / width < height && 0 <= place % width < width
    ensures place == width * (place / width) + place % width
  {
    if place / width >= height {
      MulMonotone(width, height, place / width);
      assert false;
    }
  }

  function Power(base: nat, n: nat): (p: nat)
    ensures base >= 1 ==> p >= 1
  {
    if n == 0 then 1 else base * Power(base, n - 1)
  }

  lemma {:induction false} PowerMonotone(base: nat, m: nat, n: nat)
    requires base >= 1 && m <= n
    ensures Power(base, m) <= Power(base, n)
  {
    if m < n {
      PowerMonotone(base, m, n - 1);
      Commute(base, Power(base, n - 1));
      MulMonotone(Power(base, n - 1), 1, base);
    }
  }
}
