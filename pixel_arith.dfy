/*
 * Row-major pixel arithmetic.  A pixel (r, c) of a grid whose rows are n wide
 * has the flat index r * n + c; these lemmas recover (r, c) from the index and
 * relate the order of flat indices to the lexicographic order of (r, c).
 */
module PixelArith {

  lemma MulAtLeastOne(a: int, n: int)
    requires a >= 1 && n >= 0
    ensures a * n >= n
  {
    assert (a - 1) * n >= 0;
  }

  /** Division and remainder by the row width give back the row and the column. */
  lemma DivModOfRowMajor(r: int, c: int, n: int)
    requires 0 <= c < n
    ensures (r * n + c) / n == r && (r * n + c) % n == c
  {
    var q, m := (r * n + c) / n, (r * n + c) % n;
    assert q * n + m == r * n + c;
    if q > r {
      MulAtLeastOne(q - r, n);
      assert false;
    } else if q < r {
      MulAtLeastOne(r - q, n);
      assert false;
    }
  }

  /** A smaller flat index lies on an earlier row, or earlier on the same row. */
  lemma LexFromIndex(a: int, b: int, a2: int, b2: int, n: int)
    requires 0 <= b < n && 0 <= b2 < n
    requires a * n + b < a2 * n + b2
    ensures a < a2 || (a == a2 && b < b2)
  {
    if a > a2 {
      MulAtLeastOne(a - a2, n);
      assert false;
    }
  }

  /** An earlier row, or an earlier column on the same row, gives a smaller flat index. */
  lemma IndexFromLex(a: int, b: int, a2: int, b2: int, n: int)
    requires 0 <= b < n && 0 <= b2 < n
    requires a < a2 || (a == a2 && b < b2)
    ensures a * n + b < a2 * n + b2
  {
    if a < a2 {
      MulAtLeastOne(a2 - a, n);
      assert (a2 - a) * n == a2 * n - a * n;
    }
  }

  /** Counting back from the end of an h-row block reflects both row and column. */
  lemma ReflectedIndex(a: int, b: int, h: int, n: int)
    ensures (h - 1 - a) * n + (n - 1 - b) == h * n - 1 - (a * n + b)
  {
  }

  /** Pixel (r, c) reflected through the centre of a D x D grid lands on (D - r, D - c). */
  lemma PointReflection(r: int, c: int, D: int)
    ensures (D - r) * D + (D - c) == D * (D + 1) - (r * D + c)
  {
  }

  /** m * D - x is a multiple of D exactly when x is. */
  lemma ComplementMod(m: int, x: int, D: int)
    requires D > 0
    ensures (m * D - x) % D == 0 <==> x % D == 0
  {
    var q, r := x / D, x % D;
    assert x == q * D + r;
    if r == 0 {
      assert m * D - x == (m - q) * D + 0;
      DivModOfRowMajor(m - q, 0, D);
    } else {
      assert m * D - x == (m - q - 1) * D + (D - r);
      DivModOfRowMajor(m - q - 1, D - r, D);
    }
  }

  /** Every index splits into a row and a column offset. */
  lemma SplitIndex(k: int, n: int) returns (a: int, b: int)
    requires n > 0
    ensures a == k / n && b == k % n
    ensures k == a * n + b && 0 <= b < n
    ensures k >= 0 ==> a >= 0
  {
    a, b := k / n, k % n;
    if k >= 0 && a < 0 {
      MulAtLeastOne(-a, n);
      assert false;
    }
  }
}
