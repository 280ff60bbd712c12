/**
 Division and remainder by a variable.
 */
module Arith {
  lemma {:induction false} AtLeastOne(k: int, m: int)
    requires k >= 1 && m >= 0
    ensures k * m >= m
  {
  }

  lemma {:induction false} SmallMultiple(k: int, m: int, d: int)
    requires k * m == d && -m < d < m
    ensures k == 0
  {
    if k >= 1 {
      AtLeastOne(k, m);
    } else if k <= -1 {
      assert (-k) * m == -d;
      AtLeastOne(-k, m);
    }
  }

  lemma {:induction false} Quotient(v: nat, m: nat, w: nat, r: nat)
    requires m > 0 && v == w * m + r && r < m
    ensures v / m == w && v % m == r
  {
    var q, s := v / m, v % m;
    assert v == q * m + s;
    assert (q - w) * m == q * m - w * m;
    SmallMultiple(q - w, m, r - s);
  }

  lemma {:induction false} DivDiv(v: nat, a: nat, b: nat)
    requires a > 0 && b > 0
    ensures a * b > 0 && v / a / b == v / (a * b)
  {
    var q, s := v / a, v % a;
    var w, t := q / b, q % b;
    assert v == q * a + s;
    assert q == w * b + t;
    Compose(v, a, b, q, s, w, t);
    Quotient(v, a * b, w, t * a + s);
  }

  lemma {:induction false} Compose(v: nat, a: nat, b: nat, q: nat, s: nat, w: nat, t: nat)
    requires v == q * a + s && s < a && q == w * b + t && t < b
    ensures a * b > 0 && v == w * (a * b) + (t * a + s) && t * a + s < a * b
  {
    assert q * a == w * (a * b) + t * a by {
      assert (w * b + t) * a == (w * b) * a + t * a;
      assert (w * b) * a == w * (a * b);
    }
    assert (b - t) * a == a * b - t * a;
    AtLeastOne(b - t, a);
  }

  /** `v < a * b` exactly when `v / a < b`. */
  lemma {:induction false} Below(v: nat, a: nat, b: nat)
    requires a > 0
    ensures v < a * b <==> v / a < b
  {
    var q, s := v / a, v % a;
    assert v == q * a + s;
    assert (b - q) * a == a * b - q * a;
    if q < b {
      AtLeastOne(b - q, a);
    } else {
      NotNegative(q - b, a);
      assert (q - b) * a == q * a - a * b;
    }
  }

  lemma {:induction false} NotNegative(k: nat, m: nat)
    ensures k * m >= 0
  {
  }

  lemma {:induction false} Shrinks(v: nat, b: nat)
    requires v >= b > 1
    ensures 0 <= v / b < v
  {
    var q, r := v / b, v % b;
    assert v == q * b + r;
    if q > 0 {
      assert (b - 1) * q == q * b - q;
      AtLeastOne(b - 1, q);
    }
  }

  /** The remainder of a number given by its row and column. */
  lemma {:induction false} RowColumn(row: nat, column: nat, width: nat)
    requires column < width
    ensures (row * width + column) / width == row && (row * width + column) % width == column
  {
    Quotient(row * width + column, width, row, column);
  }

  lemma {:induction false} SmallMod(x: nat, m: nat)
    requires x < m
    ensures x % m == x && x / m == 0
  {
    Quotient(x, m, 0, x);
  }

  lemma {:induction false} AddModulus(x: nat, m: nat)
    requires m > 0
    ensures (x + m) % m == x % m && (x + m) / m == x / m + 1
  {
    assert x == x / m * m + x % m;
    assert (x / m + 1) * m == x / m * m + m;
    Quotient(x + m, m, x / m + 1, x % m);
  }
}
