/*
 * The pixel-index sets that FTSliceDecoder builds once, from the image side
 * length D alone, to evaluate only half of a D x D central slice and fill in
 * the other half from the conjugate symmetry F*(x, y) = F(-x, -y).
 *
 * Pixels are numbered in row-major order: pixel (r, c) has index r * D + c.
 * The constructions below follow the numpy expressions they model (arange,
 * meshgrid + ravel, negative and reversed slices); the lemmas then give their
 * closed forms and the partition and pairing facts the decoder relies on.
 */
module SliceIndex {
  import opened PixelArith

  /** numpy's arange(lo, hi): the integers lo, lo + 1, ..., hi - 1. */
  function Arange(lo: int, hi: int): (r: seq<int>)
    ensures |r| == if lo < hi then hi - lo else 0
    ensures forall k :: 0 <= k < |r| ==> r[k] == lo + k
  {
    if lo < hi then seq(hi - lo, k => lo + k) else []
  }

  /** numpy's arange(lo, hi, step) for a positive step. */
  function ArangeStep(lo: int, hi: int, step: int): (r: seq<int>)
    requires step > 0
    ensures |r| == if lo < hi then (hi - lo - 1) / step + 1 else 0
    ensures forall k :: 0 <= k < |r| ==> r[k] == lo + k * step
  {
    if lo < hi then seq((hi - lo - 1) / step + 1, k => lo + k * step) else []
  }

  /**
   * (j * D + i).ravel() where i, j = meshgrid(xs, ys): one run per entry of ys,
   * each running over xs, so the ravel has |ys| * |xs| entries.
   */
  function MeshRavel(ys: seq<int>, xs: seq<int>, D: int): (r: seq<int>)
    ensures |r| == |ys| * |xs|
  {
    if ys == [] then []
    else
      var rest := MeshRavel(ys[1..], xs, D);
      assert |ys| * |xs| == |xs| + (|ys| - 1) * |xs|;
      seq(|xs|, b requires 0 <= b < |xs| => ys[0] * D + xs[b]) + rest
  }

  /** Python's s[:-k] for k >= 0: the first |s| - k entries, and nothing at all for k = 0. */
  function DropLast(s: seq<int>, k: nat): (r: seq<int>)
    ensures k == 0 || |s| <= k ==> r == []
    ensures 0 < k < |s| ==> |r| == |s| - k
    ensures forall i :: 0 <= i < |r| ==> r[i] == s[i]
  {
    if k == 0 || |s| <= k then [] else s[..|s| - k]
  }

  /** Python's s[k:] for k >= 0: everything after the first k entries. */
  function DropFirst(s: seq<int>, k: nat): (r: seq<int>)
    ensures |r| == if |s| <= k then 0 else |s| - k
    ensures forall i :: 0 <= i < |r| ==> r[i] == s[k + i]
  {
    if |s| <= k then [] else s[k..]
  }

  /** Python's s[::-1]: entry i of s moves to position |s| - 1 - i. */
  function Reverse(s: seq<int>): (r: seq<int>)
    ensures |r| == |s|
    ensures forall i :: 0 <= i < |s| ==> r[|s| - 1 - i] == s[i]
  {
    seq(|s|, k requires 0 <= k < |s| => s[|s| - 1 - k])
  }

  /** int(D / 2) for a positive D. */
  function Half(D: int): int
  {
    D / 2
  }

  /** The grids the decoder's symmetry bookkeeping is meant for. */
  predicate EvenSize(D: int)
  {
    D >= 2 && D % 2 == 0
  }

  /** The centre pixel (D2, D2), the origin of the frequency lattice: a pixel of every grid. */
  function Center(D: int): (r: int)
    ensures D >= 1 ==> 0 <= r < D * D
  {
    if D >= 1 then
      IndexFromLex(Half(D), Half(D), D, 0, D);
      Half(D) * D + Half(D)
    else
      Half(D) * D + Half(D)
  }

  /**
   * arange((D2+1)*D, D**2, D): the left-column pixels of the rows D2 + 1 .. D - 1
   * below the centre row.
   */
  function Extra(D: int): (r: seq<int>)
    requires D >= 1
    ensures |r| == D - 1 - Half(D)
    ensures forall t :: 0 <= t < |r| ==> r[t] == (Half(D) + 1 + t) * D
  {
    ExtraCount(D);
    ArangeStep((Half(D) + 1) * D, D * D, D)
  }

  /** Every pixel up to and including the centre, in order, then the extra column. */
  function AllEval(D: int): (r: seq<int>)
    requires D >= 1
    ensures |r| == Center(D) + D - Half(D)
    ensures forall t :: 0 <= t <= Center(D) ==> r[t] == t
  {
    Arange(0, Center(D) + 1) + Extra(D)
  }

  /** Rows 1..D2 without column 0, with the last D2 entries dropped: D2 * (D - 2) pixels. */
  function Top(D: int): (r: seq<int>)
    requires D >= 1
    ensures |r| == Half(D) * (D - 2)
  {
    TopCount(D);
    DropLast(MeshRavel(Arange(1, Half(D) + 1), Arange(1, D), D), Half(D))
  }

  /** Rows D2..D-1 without column 0, the first D2 entries dropped, reversed. */
  function BottomRev(D: int): (r: seq<int>)
    requires D >= 1
    ensures |r| == (D - Half(D)) * (D - 1) - Half(D)
  {
    BottomRevCount(D);
    Reverse(DropFirst(MeshRavel(Arange(Half(D), D), Arange(1, D), D), Half(D)))
  }

  /** The ravel of rows 1..D2 has D2 * (D - 1) entries; for D >= 3 that is more than the D2 dropped. */
  lemma TopCount(D: int)
    requires D >= 1
    ensures |DropLast(MeshRavel(Arange(1, Half(D) + 1), Arange(1, D), D), Half(D))| == Half(D) * (D - 2)
  {
    var H := Half(D);
    if D >= 3 {
      MulAtLeastOne(D - 2, H);
      assert H * (D - 1) == H * (D - 2) + H;
    } else {
      assert H * (D - 2) == 0;
    }
  }

  /** The ravel of rows D2..D-1 has (D - D2) * (D - 1) entries, at least the D2 dropped. */
  lemma BottomRevCount(D: int)
    requires D >= 1
    ensures |DropFirst(MeshRavel(Arange(Half(D), D), Arange(1, D), D), Half(D))| == (D - Half(D)) * (D - 1) - Half(D)
  {
    if D >= 2 {
      MulAtLeastOne(D - Half(D), D - 1);
    }
  }

  /** The number of entries of arange((D2+1)*D, D**2, D): one per row below the centre row. */
  lemma ExtraCount(D: int)
    requires D >= 1
    ensures |ArangeStep((Half(D) + 1) * D, D * D, D)| == D - 1 - Half(D)
  {
    var H := Half(D);
    if H + 2 <= D {
      assert D * D - (H + 1) * D - 1 == (D - H - 2) * D + (D - 1);
      DivModOfRowMajor(D - H - 2, D - 1, D);
      IndexFromLex(H + 1, 0, D, 0, D);
    } else {
      assert H + 1 == D;
      assert (H + 1) * D == D * D;
    }
  }

  /** Point reflection of a flat index through the centre: (r, c) to (D - r, D - c). */
  function Mirror(D: int, x: int): int
  {
    D * (D + 1) - x
  }

  predicate StrictlyIncreasing(s: seq<int>)
  {
    forall i, j :: 0 <= i < j < |s| ==> s[i] < s[j]
  }

  predicate StrictlyDecreasing(s: seq<int>)
  {
    forall i, j :: 0 <= i < j < |s| ==> s[i] > s[j]
  }

  /** No index occurs twice. */
  predicate Distinct(s: seq<int>)
  {
    forall i, j :: 0 <= i < j < |s| ==> s[i] != s[j]
  }

  // ---------------------------------------------------------------------------
  // The ravel of a meshgrid

  /** Entry a * |xs| + b of the ravel is ys[a] * D + xs[b]. */
  lemma {:induction false} MeshRavelAt(ys: seq<int>, xs: seq<int>, D: int, a: int, b: int)
    requires 0 <= a < |ys| && 0 <= b < |xs|
    ensures |MeshRavel(ys, xs, D)| == |ys| * |xs|
    ensures a * |xs| + b < |ys| * |xs|
    ensures MeshRavel(ys, xs, D)[a * |xs| + b] == ys[a] * D + xs[b]
  {
    IndexFromLex(a, b, |ys|, 0, |xs|);
    if a > 0 {
      MeshRavelAt(ys[1..], xs, D, a - 1, b);
      assert a * |xs| + b == |xs| + ((a - 1) * |xs| + b);
    }
  }

  // ---------------------------------------------------------------------------
  // Closed forms

  /** The centre is pixel (D2, D2), and the reflection leaves it in place. */
  lemma CenterPixel(D: int)
    requires EvenSize(D)
    ensures Center(D) / D == Half(D) && Center(D) % D == Half(D)
    ensures Mirror(D, Center(D)) == Center(D)
    ensures Center(D) + Center(D) == D * D + D
  {
    DivModOfRowMajor(Half(D), Half(D), D);
    assert D == 2 * Half(D);
  }

  lemma TopLength(D: int)
    requires EvenSize(D)
    ensures |Top(D)| == (Half(D) - 1) * D
  {
    var H := Half(D);
    assert D == 2 * H;
    assert H * (D - 2) == (H - 1) * D;
  }

  lemma BottomRevLength(D: int)
    requires EvenSize(D)
    ensures |BottomRev(D)| == (Half(D) - 1) * D
  {
    var H := Half(D);
    assert D == 2 * H;
    assert (D - H) * (D - 1) - H == (H - 1) * D;
  }

  /**
   * Every index below (D2 - 1) * D splits as a * (D - 1) + b with b a column
   * offset; the split is strictly before (D2 - 1, D2 - 1).
   */
  lemma SplitTopIndex(D: int, k: int) returns (a: int, b: int)
    requires EvenSize(D) && 0 <= k < (Half(D) - 1) * D
    ensures k == a * (D - 1) + b && 0 <= a && 0 <= b < D - 1
    ensures a < Half(D) - 1 || (a == Half(D) - 1 && b < Half(D) - 1)
  {
    var h, n := Half(D) - 1, D - 1;
    assert 0 <= h < n;
    assert k < h * n + h by {
      assert h * D == h * n + h by { assert D == n + 1; }
    }
    a, b := SplitIndex(k, n);
    LexFromIndex(a, b, h, h, n);
  }

  /**
   * Entry a * (D - 1) + b of top is pixel (a + 1, b + 1): off the top row and
   * off the left column, strictly before the centre.
   */
  lemma TopAt(D: int, a: int, b: int)
    requires EvenSize(D) && 0 <= a && 0 <= b < D - 1
    requires a < Half(D) - 1 || (a == Half(D) - 1 && b < Half(D) - 1)
    ensures 0 <= a * (D - 1) + b < |Top(D)|
    ensures Top(D)[a * (D - 1) + b] == (a + 1) * D + b + 1
  {
    var h, n := Half(D) - 1, D - 1;
    TopLength(D);
    assert a * n + b < h * n + h by {
      IndexFromLex(a, b, h, h, n);
    }
    assert h * D == h * n + h by {
      assert D == n + 1;
    }
    TopFromRavel(D, a * n + b);
    TopRavelAt(D, a, b);
  }

  /** top is a prefix of the ravel of rows 1 .. D2. */
  lemma TopFromRavel(D: int, k: int)
    requires D >= 1 && 0 <= k < |Top(D)|
    ensures var M := MeshRavel(Arange(1, Half(D) + 1), Arange(1, D), D);
      k < |M| && Top(D)[k] == M[k]
  {
  }

  /** The ravel of rows 1 .. D2 holds pixel (a + 1, b + 1) at a * (D - 1) + b. */
  lemma TopRavelAt(D: int, a: int, b: int)
    requires EvenSize(D) && 0 <= a < Half(D) && 0 <= b < D - 1
    ensures var M := MeshRavel(Arange(1, Half(D) + 1), Arange(1, D), D);
      a * (D - 1) + b < |M| && M[a * (D - 1) + b] == (a + 1) * D + b + 1
  {
    var ys, xs := Arange(1, Half(D) + 1), Arange(1, D);
    assert ys[a] == a + 1 && xs[b] == b + 1;
    MeshRavelAt(ys, xs, D, a, b);
  }

  /**
   * Entry a * (D - 1) + b of bottom_rev is pixel (D - 1 - a, D - 1 - b), the
   * point reflection of the pixel at the same position of top.
   */
  lemma BottomRevAt(D: int, a: int, b: int)
    requires EvenSize(D) && 0 <= a && 0 <= b < D - 1
    requires a < Half(D) - 1 || (a == Half(D) - 1 && b < Half(D) - 1)
    ensures |BottomRev(D)| == (Half(D) - 1) * D
    ensures a * (D - 1) + b < |BottomRev(D)|
    ensures BottomRev(D)[a * (D - 1) + b] == (D - 1 - a) * D + (D - 1 - b)
  {
    BottomRevLength(D);
    assert a * (D - 1) + b < (Half(D) - 1) * D by { TopAt(D, a, b); TopLength(D); }
    BottomRevEntry(D, a, b);
  }

  lemma BottomRevEntry(D: int, a: int, b: int)
    requires EvenSize(D) && 0 <= a && 0 <= b < D - 1
    requires a < Half(D) - 1 || (a == Half(D) - 1 && b < Half(D) - 1)
    requires a * (D - 1) + b < |BottomRev(D)|
    ensures BottomRev(D)[a * (D - 1) + b] == (D - 1 - a) * D + (D - 1 - b)
  {
    var H, n := Half(D), D - 1;
    var M := MeshRavel(Arange(H, D), Arange(1, D), D);
    var k := a * n + b;
    assert |M| == H * n by {
      assert D - H == H;
    }
    ReversedSuffixAt(M, H, k);
    assert |M| - 1 - k == (H - 1 - a) * n + (n - 1 - b) by {
      ReflectedIndex(a, b, H, n);
    }
    BottomRavelAt(D, a, b);
  }

  /** Entry k of s[h:][::-1] is entry |s| - 1 - k of s. */
  lemma ReversedSuffixAt(s: seq<int>, h: nat, k: int)
    requires 0 <= k < |Reverse(DropFirst(s, h))|
    ensures k < |s| - h && Reverse(DropFirst(s, h))[k] == s[|s| - 1 - k]
  {
  }

  /** The ravel of rows D2 .. D - 1 holds pixel (D - 1 - a, D - 1 - b) where bottom_rev expects it. */
  lemma BottomRavelAt(D: int, a: int, b: int)
    requires EvenSize(D) && 0 <= a < Half(D) && 0 <= b < D - 1
    ensures var M := MeshRavel(Arange(Half(D), D), Arange(1, D), D);
      var i := (Half(D) - 1 - a) * (D - 1) + (D - 2 - b);
      0 <= i < |M| && M[i] == (D - 1 - a) * D + (D - 1 - b)
  {
    var H, n := Half(D), D - 1;
    var ys, xs := Arange(H, D), Arange(1, D);
    assert D == 2 * H;
    assert ys[H - 1 - a] == D - 1 - a && xs[n - 1 - b] == D - 1 - b;
    MeshRavelAt(ys, xs, D, H - 1 - a, n - 1 - b);
  }

  // ---------------------------------------------------------------------------
  // The properties the decoder relies on

  /**
   * top and bottom_rev have the same length, (D2 - 1) * D, and are paired
   * entry by entry by the point reflection through the centre: entry k of top
   * is a pixel (r, c) off the top row and the left column, and entry k of
   * bottom_rev is (D - r, D - c).
   */
  lemma MirrorPairs(D: int)
    requires EvenSize(D)
    ensures |Top(D)| == |BottomRev(D)| == (Half(D) - 1) * D
    ensures forall k :: 0 <= k < |Top(D)| ==> BottomRev(D)[k] == Mirror(D, Top(D)[k])
    ensures forall k :: 0 <= k < |Top(D)| ==>
      var r, c := Top(D)[k] / D, Top(D)[k] % D;
      1 <= r && 1 <= c && BottomRev(D)[k] == (D - r) * D + (D - c)
  {
    TopLength(D);
    BottomRevLength(D);
    forall k | 0 <= k < |Top(D)|
      ensures BottomRev(D)[k] == Mirror(D, Top(D)[k])
      ensures var r, c := Top(D)[k] / D, Top(D)[k] % D;
        1 <= r && 1 <= c && BottomRev(D)[k] == (D - r) * D + (D - c)
    {
      MirrorPairAt(D, k);
    }
  }

  lemma MirrorPairAt(D: int, k: int)
    requires EvenSize(D) && 0 <= k < |Top(D)| && |Top(D)| == |BottomRev(D)|
    ensures BottomRev(D)[k] == Mirror(D, Top(D)[k])
    ensures var r, c := Top(D)[k] / D, Top(D)[k] % D;
      1 <= r && 1 <= c && BottomRev(D)[k] == (D - r) * D + (D - c)
  {
    TopLength(D);
    var a, b := SplitTopIndex(D, k);
    var r, c := a + 1, b + 1;
    var y, z := Top(D)[k], BottomRev(D)[k];
    assert y == r * D + c by {
      TopAt(D, a, b);
    }
    assert z == (D - r) * D + (D - c) by {
      BottomRevAt(D, a, b);
    }
    ReflectedPixel(D, r, c, y, z);
  }

  /** Pixel y = (r, c) has row y / D = r and column y % D = c, and its point reflection z is D * (D + 1) - y. */
  lemma ReflectedPixel(D: int, r: int, c: int, y: int, z: int)
    requires 0 <= c < D && y == r * D + c && z == (D - r) * D + (D - c)
    ensures y / D == r && y % D == c && z == Mirror(D, y)
  {
    DivModOfRowMajor(r, c, D);
    PointReflection(r, c, D);
  }

  /** Entry k of top is a pixel off the top row and the left column, before the centre. */
  lemma TopEntry(D: int, k: int)
    requires EvenSize(D) && 0 <= k < |Top(D)|
    ensures D <= Top(D)[k] < Center(D) && Top(D)[k] % D != 0
  {
    TopLength(D);
    var a, b := SplitTopIndex(D, k);
    TopAt(D, a, b);
    DivModOfRowMajor(a + 1, b + 1, D);
    MulAtLeastOne(a + 1, D);
    IndexFromLex(a + 1, b + 1, Half(D), Half(D), D);
  }

  /** A pixel from row 1 up to the centre, off the left column, is pixel (a + 1, b + 1) for a position a * (D - 1) + b of top. */
  lemma TopPosition(D: int, x: int) returns (a: int, b: int)
    requires EvenSize(D) && D <= x < Center(D) && x % D != 0
    ensures 0 <= a && 0 <= b < D - 1
    ensures a < Half(D) - 1 || (a == Half(D) - 1 && b < Half(D) - 1)
    ensures x == (a + 1) * D + b + 1
  {
    var H := Half(D);
    assert x < H * D + H;
    var r, c := SplitIndex(x, D);
    assert 1 <= r by {
      if r < 1 {
        IndexFromLex(r, c, 1, 0, D);
      }
    }
    assert r < H || (r == H && c < H) by {
      LexFromIndex(r, c, H, H, D);
    }
    a, b := r - 1, c - 1;
  }

  /** Every pixel from row 1 up to the centre that is off the left column is in top. */
  lemma TopContains(D: int, x: int)
    requires EvenSize(D) && D <= x < Center(D) && x % D != 0
    ensures x in Top(D)
  {
    var a, b := TopPosition(D, x);
    var k := a * (D - 1) + b;
    TopAt(D, a, b);
    assert 0 <= k < |Top(D)| && Top(D)[k] == x;
  }

  /**
   * top holds exactly the pixels from row 1 up to (not including) the centre
   * that are not in the left column.
   */
  lemma TopMembers(D: int)
    requires EvenSize(D)
    ensures forall x :: x in Top(D) <==> D <= x < Center(D) && x % D != 0
  {
    forall x | D <= x < Center(D) && x % D != 0
      ensures x in Top(D)
    {
      TopContains(D, x);
    }
    forall x | x in Top(D)
      ensures D <= x < Center(D) && x % D != 0
    {
      var k :| 0 <= k < |Top(D)| && Top(D)[k] == x;
      TopEntry(D, k);
    }
  }

  /** top is listed in increasing pixel order. */
  lemma TopIncreasing(D: int)
    requires EvenSize(D)
    ensures StrictlyIncreasing(Top(D))
  {
    TopLength(D);
    forall i, j | 0 <= i < j < |Top(D)|
      ensures Top(D)[i] < Top(D)[j]
    {
      var a, b := SplitTopIndex(D, i);
      var a2, b2 := SplitTopIndex(D, j);
      TopAt(D, a, b);
      TopAt(D, a2, b2);
      LexFromIndex(a, b, a2, b2, D - 1);
      IndexFromLex(a + 1, b + 1, a2 + 1, b2 + 1, D);
    }
  }

  /** bottom_rev is listed in decreasing pixel order (a reversed scan). */
  lemma BottomRevDecreasing(D: int)
    requires EvenSize(D)
    ensures StrictlyDecreasing(BottomRev(D))
  {
    MirrorPairs(D);
    TopIncreasing(D);
  }

  /** Entry k of bottom_rev is a pixel after the centre, off the left column. */
  lemma BottomRevEntryBounds(D: int, k: int)
    requires EvenSize(D) && 0 <= k < |BottomRev(D)|
    ensures Center(D) < BottomRev(D)[k] < D * D && BottomRev(D)[k] % D != 0
  {
    assert |Top(D)| == |BottomRev(D)| by {
      TopLength(D);
      BottomRevLength(D);
    }
    var y := Top(D)[k];
    assert BottomRev(D)[k] == Mirror(D, y) by {
      MirrorPairs(D);
    }
    assert D <= y < Center(D) && y % D != 0 by {
      MirrorPairs(D);
      TopEntry(D, k);
    }
    MirrorOfUpper(D, y);
  }

  /** The reflection of a pixel above the centre, off the top row and left column, lies below the centre, off the left column. */
  lemma MirrorOfUpper(D: int, y: int)
    requires EvenSize(D) && D <= y < Center(D) && y % D != 0
    ensures Center(D) < Mirror(D, y) < D * D && Mirror(D, y) % D != 0
  {
    assert D * (D + 1) == D * D + D;
    assert Center(D) + Center(D) == D * D + D by {
      CenterPixel(D);
    }
    assert y != D by {
      DivModOfRowMajor(1, 0, D);
    }
    assert Mirror(D, y) % D != 0 by {
      ComplementMod(D + 1, y, D);
      assert (D + 1) * D == D * (D + 1);
    }
  }

  /** Every pixel after the centre that is off the left column is in bottom_rev. */
  lemma BottomRevContains(D: int, x: int)
    requires EvenSize(D) && Center(D) < x < D * D && x % D != 0
    ensures x in BottomRev(D)
  {
    var y := Mirror(D, x);
    assert D <= y < Center(D) && y % D != 0 by {
      CenterPixel(D);
      ComplementMod(D + 1, x, D);
      assert D * (D + 1) == (D + 1) * D == D * D + D;
    }
    TopContains(D, y);
    var k :| 0 <= k < |Top(D)| && Top(D)[k] == y;
    assert Mirror(D, y) == x;
    assert k < |BottomRev(D)| && BottomRev(D)[k] == x by {
      MirrorPairs(D);
    }
  }

  /**
   * bottom_rev holds exactly the pixels after the centre that are not in the
   * left column: the reflections of the pixels of top.
   */
  lemma BottomRevMembers(D: int)
    requires EvenSize(D)
    ensures forall x :: x in BottomRev(D) <==> Center(D) < x < D * D && x % D != 0
  {
    forall x | x in BottomRev(D)
      ensures Center(D) < x < D * D && x % D != 0
    {
      var k :| 0 <= k < |BottomRev(D)| && BottomRev(D)[k] == x;
      BottomRevEntryBounds(D, k);
    }
    forall x | Center(D) < x < D * D && x % D != 0
      ensures x in BottomRev(D)
    {
      BottomRevContains(D, x);
    }
  }

  /** Entry t of extra is the left-column pixel of row D2 + 1 + t. */
  lemma ExtraEntry(D: int, t: int)
    requires EvenSize(D) && 0 <= t < |Extra(D)|
    ensures var x := Extra(D)[t];
      x % D == 0 && x / D == Half(D) + 1 + t < D && Center(D) < x < D * D
  {
    var H := Half(D);
    assert D == 2 * H;
    var x := Extra(D)[t];
    assert x == (H + 1 + t) * D + 0;
    DivModOfRowMajor(H + 1 + t, 0, D);
    IndexFromLex(H, H, H + 1 + t, 0, D);
    IndexFromLex(H + 1 + t, 0, D, 0, D);
  }

  /** Every left-column pixel after the centre row is in extra. */
  lemma ExtraContains(D: int, x: int)
    requires EvenSize(D) && x % D == 0
    requires Half(D) < x / D < D || Center(D) < x < D * D
    ensures x in Extra(D)
    ensures Half(D) < x / D < D && Center(D) < x < D * D
  {
    var H, C := Half(D), Center(D);
    assert C == H * D + H;
    var r, c := SplitIndex(x, D);
    assert x == r * D + 0;
    assert H < r < D by {
      if C < x < D * D {
        LexFromIndex(H, H, r, 0, D);
        LexFromIndex(r, 0, D, 0, D);
      }
    }
    assert C < x < D * D by {
      IndexFromLex(H, H, r, 0, D);
      IndexFromLex(r, 0, D, 0, D);
    }
    var t := r - H - 1;
    assert 0 <= t < |Extra(D)| by {
      assert D == 2 * H;
    }
    assert Extra(D)[t] == (H + 1 + t) * D;
  }

  /**
   * extra holds the D2 - 1 left-column pixels of rows D2 + 1 .. D - 1, in
   * order: the pixels after the centre whose reflection (D - r, D) falls off
   * the grid, so that they have no partner in top.
   */
  lemma ExtraMembers(D: int)
    requires EvenSize(D)
    ensures |Extra(D)| == Half(D) - 1
    ensures StrictlyIncreasing(Extra(D))
    ensures forall x :: x in Extra(D) <==> x % D == 0 && Half(D) < x / D < D
    ensures forall x :: x in Extra(D) <==> Center(D) < x < D * D && x % D == 0
    ensures forall x :: x in Extra(D) ==> Mirror(D, x) % D == 0 && Mirror(D, x) !in Top(D)
  {
    var H := Half(D);
    assert D == 2 * H;
    forall i, j | 0 <= i < j < H - 1
      ensures Extra(D)[i] < Extra(D)[j]
    {
      IndexFromLex(H + 1 + i, 0, H + 1 + j, 0, D);
    }
    forall x | x in Extra(D)
      ensures x % D == 0 && H < x / D < D && Center(D) < x < D * D
    {
      var t :| 0 <= t < H - 1 && Extra(D)[t] == x;
      ExtraEntry(D, t);
    }
    assert forall x :: x in Extra(D) ==> Mirror(D, x) % D == 0 && Mirror(D, x) !in Top(D) by {
      ExtraUnpaired(D);
    }
    forall x | x % D == 0 && (H < x / D < D || Center(D) < x < D * D)
      ensures x in Extra(D)
    {
      ExtraContains(D, x);
    }
  }

  /** The reflection (D - r, 0) of an extra pixel lies in the left column, so top never reads it. */
  lemma ExtraUnpaired(D: int)
    requires EvenSize(D)
    ensures forall x :: x in Extra(D) ==> Mirror(D, x) % D == 0 && Mirror(D, x) !in Top(D)
  {
    var H := Half(D);
    forall x | x in Extra(D)
      ensures Mirror(D, x) % D == 0
    {
      var t :| 0 <= t < |Extra(D)| && Extra(D)[t] == x;
      var s := H + 1 + t;
      assert x == s * D;
      assert Mirror(D, x) == (D + 1 - s) * D + 0 by {
        assert D * (D + 1) - s * D == (D + 1 - s) * D;
      }
      DivModOfRowMajor(D + 1 - s, 0, D);
    }
    TopMembers(D);
  }

  /**
   * all_eval holds every pixel up to and including the centre and, after it,
   * exactly the left-column pixels; it lists them in increasing order, so its
   * first Center(D) + 1 entries are the pixels 0 .. Center(D) themselves.
   */
  lemma AllEvalMembers(D: int)
    requires EvenSize(D)
    ensures |AllEval(D)| == Center(D) + Half(D)
    ensures StrictlyIncreasing(AllEval(D))
    ensures forall x :: x in AllEval(D) <==> 0 <= x <= Center(D) || (Center(D) < x < D * D && x % D == 0)
    ensures forall t :: 0 <= t <= Center(D) ==> AllEval(D)[t] == t
  {
    ExtraMembers(D);
    var P, E := Arange(0, Center(D) + 1), Extra(D);
    assert AllEval(D) == P + E;
    forall i, j | 0 <= i < j < |P + E|
      ensures (P + E)[i] < (P + E)[j]
    {
      if i < |P| <= j {
        assert E[j - |P|] in E;
      }
    }
    forall x
      ensures x in P + E <==> x in P || x in E
      ensures x in P <==> 0 <= x <= Center(D)
    {
      if 0 <= x <= Center(D) {
        assert P[x] == x;
      }
    }
  }

  /**
   * all_eval and bottom_rev split the D * D pixels: together they list every
   * pixel exactly once, so the two scattered writes of the decoder's forward
   * fill the whole image and never write a pixel twice.
   */
  lemma Partition(D: int)
    requires EvenSize(D)
    ensures forall x :: x in AllEval(D) + BottomRev(D) <==> 0 <= x < D * D
    ensures forall x :: !(x in AllEval(D) && x in BottomRev(D))
    ensures Distinct(AllEval(D) + BottomRev(D))
    ensures |AllEval(D)| + |BottomRev(D)| == D * D
  {
    PartitionLength(D);
    PartitionCovers(D);
    PartitionDistinct(D);
  }

  lemma PartitionLength(D: int)
    requires EvenSize(D)
    ensures |AllEval(D)| + |BottomRev(D)| == D * D
  {
    var H, C := Half(D), Center(D);
    assert C == H * D + H;
    BottomRevLength(D);
    HalvesCover(H, D);
  }

  /** With D = 2 * H, the (H * D + H) + D - H evaluated pixels and the (H - 1) * D mirrored ones make D * D. */
  lemma HalvesCover(H: int, D: int)
    requires D == 2 * H
    ensures (H * D + H) + D - H + (H - 1) * D == D * D
  {
  }

  lemma PartitionCovers(D: int)
    requires EvenSize(D)
    ensures forall x :: x in AllEval(D) + BottomRev(D) <==> 0 <= x < D * D
    ensures forall x :: !(x in AllEval(D) && x in BottomRev(D))
  {
    var A, B := AllEval(D), BottomRev(D);
    AllEvalMembers(D);
    BottomRevMembers(D);
    CenterPixel(D);
    assert forall x :: x in A + B <==> x in A || x in B;
  }

  lemma PartitionDistinct(D: int)
    requires EvenSize(D)
    ensures Distinct(AllEval(D) + BottomRev(D))
  {
    var A, B := AllEval(D), BottomRev(D);
    assert forall x :: !(x in A && x in B) by {
      PartitionCovers(D);
    }
    assert StrictlyIncreasing(A) && StrictlyDecreasing(B) by {
      AllEvalMembers(D);
      BottomRevDecreasing(D);
    }
    forall i, j | 0 <= i < j < |A + B|
      ensures (A + B)[i] != (A + B)[j]
    {
      if i < |A| <= j {
        assert A[i] in A && B[j - |A|] in B;
      }
    }
  }

  /**
   * forward reads the value for entry k of top at position top[k] of its
   * half-image, which is evaluated in all_eval order; that position holds
   * pixel top[k] itself, because every index of top lies before the centre
   * and all_eval starts with the pixels 0 .. centre in order.
   */
  lemma TopReadsItself(D: int)
    requires EvenSize(D)
    ensures forall k :: 0 <= k < |Top(D)| ==>
      0 <= Top(D)[k] < Center(D) < |AllEval(D)| && AllEval(D)[Top(D)[k]] == Top(D)[k]
  {
    AllEvalMembers(D);
    forall k | 0 <= k < |Top(D)|
      ensures 0 <= Top(D)[k] < Center(D)
    {
      TopEntry(D, k);
    }
  }

  /**
   * For an odd side length the constructions still run, but bottom_rev is
   * D - 1 entries longer than top.  For odd D >= 5 the store into bottom_rev
   * in forward then raises; for D = 3 top has a single entry, which torch
   * broadcasts (MirrorStoreRunsExactly).
   */
  lemma OddSizesMismatch(D: int)
    requires D >= 3 && D % 2 == 1
    ensures |BottomRev(D)| == |Top(D)| + D - 1
  {
    var H := Half(D);
    assert D == 2 * H + 1;
    assert (D - H) * (D - 1) == 2 * H * H + 2 * H;
    assert H * (D - 2) == 2 * H * H - H;
  }

  /**
   * The store into bottom_rev at the end of forward goes through: torch
   * assigns the values read through top to the pixels of bottom_rev when the
   * two have the same length, and broadcasts a single value to all of them.
   */
  predicate MirrorStoreRuns(D: int)
    requires D >= 1
  {
    |Top(D)| == |BottomRev(D)| || |Top(D)| == 1
  }

  /**
   * The store goes through for every even side length and for D = 1 and
   * D = 3; for every odd D >= 5 the shapes differ and it raises.
   */
  lemma MirrorStoreRunsExactly(D: int)
    requires D >= 1
    ensures MirrorStoreRuns(D) <==> EvenSize(D) || D == 1 || D == 3
  {
    var H := Half(D);
    if D % 2 == 0 {
      TopLength(D);
      BottomRevLength(D);
    } else if D >= 5 {
      OddSizesMismatch(D);
      assert D == 2 * H + 1 && H >= 2;
      MulAtLeastOne(H, D - 2);
    } else if D == 3 {
      assert |Top(3)| == 1;
    } else {
      assert |Top(1)| == 0 == |BottomRev(1)|;
    }
  }

  /** The index sets of a 3 x 3 image: top holds the centre pixel alone, and bottom_rev three pixels. */
  lemma ThreeByThree()
    ensures Center(3) == 4
    ensures AllEval(3) == [0, 1, 2, 3, 4, 6]
    ensures Top(3) == [4]
    ensures BottomRev(3) == [8, 7, 5]
  {
  }

  /** The index sets of a 4 x 4 image, written out. */
  lemma FourByFour()
    ensures Center(4) == 10
    ensures AllEval(4) == [0, 1, 2, 3, 4, 5, 6, 7, 8, 9, 10, 12]
    ensures Top(4) == [5, 6, 7, 9]
    ensures BottomRev(4) == [15, 14, 13, 11]
  {
  }
}
