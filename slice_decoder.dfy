/*
 * FTSliceDecoder: a central slice of a 3-D Fourier volume, decoded on only
 * half of the frequency lattice and completed from the conjugate symmetry
 * F*(p) = F(-p) of the transform of a real-valued volume.
 *
 * The learned network is a parameter: any total function from a lattice row
 * (x, y, z and the latent coordinates after them) to its two output channels,
 * the real and the imaginary part of the transform at that point.  The network
 * acts on each row separately (it is a stack of linear layers and ReLUs), so a
 * batch of rows is decoded row by row.  One image is modelled; the leading
 * batch dimensions of the tensors are handled pointwise.
 */
module SliceDecoder {
  import opened SliceIndex

  /** One lattice row: x, y, z, then the latent coordinates. */
  type Coord = seq<real>

  /** The network's two output channels at one point. */
  datatype Spectrum = Spectrum(re: real, im: real)

  /** Complex conjugate. */
  function Conj(s: Spectrum): Spectrum
  {
    Spectrum(s.re, -s.im)
  }

  /** The Hartley value re - im that an image pixel stores. */
  function Hartley(s: Spectrum): real
  {
    s.re - s.im
  }

  /** The row has the three spatial components the decoder looks at. */
  predicate HasXYZ(p: Coord)
  {
    |p| >= 3
  }

  /** The point -p: the three spatial components negated, the latent part kept. */
  function Negate(p: Coord): (r: Coord)
    requires HasXYZ(p)
    ensures HasXYZ(r) && |r| == |p| && r[3..] == p[3..]
    ensures r[0] == -p[0] && r[1] == -p[1] && r[2] == -p[2]
  {
    [-p[0], -p[1], -p[2]] + p[3..]
  }

  /** decode's mask: the point lies in the upper half space z > 0. */
  predicate Masked(p: Coord)
    requires HasXYZ(p)
  {
    p[2] > 0.0
  }

  /** What decode leaves in a lattice row: rows with z > 0 are moved to -p. */
  function Fold(p: Coord): (r: Coord)
    requires HasXYZ(p)
    ensures HasXYZ(r) && !Masked(r)
    ensures r == p || r == Negate(p)
  {
    if Masked(p) then Negate(p) else p
  }

  /**
   * What decode returns for a row: the network is only ever evaluated at the
   * folded row, which has z <= 0, and a row that was moved gets the conjugate
   * of the value there.
   */
  function DecodedAt(f: Coord -> Spectrum, p: Coord): (r: Spectrum)
    requires HasXYZ(p)
    ensures r == if Masked(p) then Conj(f(Fold(p))) else f(Fold(p))
  {
    if Masked(p) then Conj(f(Negate(p))) else f(p)
  }

  /** The network respects the symmetry of the transform of a real volume. */
  ghost predicate Hermitian(f: Coord -> Spectrum)
  {
    forall p: Coord {:trigger Negate(p)} :: HasXYZ(p) ==> f(Negate(p)) == Conj(f(p))
  }

  /** Negation is an involution on lattice rows. */
  lemma NegateTwice(p: Coord)
    requires HasXYZ(p)
    ensures HasXYZ(Negate(p)) && Negate(Negate(p)) == p
  {
    assert Negate(Negate(p)) == [p[0], p[1], p[2]] + p[3..];
  }

  /**
   * decode only ever presents the network with points of the lower half
   * space z <= 0, keeps each row's length and latent part, and folding twice
   * changes nothing more.
   */
  lemma FoldLowerHalf(p: Coord)
    requires HasXYZ(p)
    ensures HasXYZ(Fold(p)) && !Masked(Fold(p))
    ensures |Fold(p)| == |p| && Fold(p)[3..] == p[3..]
    ensures Fold(p)[..2] == p[..2] || Fold(p)[..2] == [-p[0], -p[1]]
    ensures Fold(Fold(p)) == Fold(p)
    ensures !Masked(p) ==> Fold(p) == p
  {
  }

  /** A point and its negation decode to conjugate values, whichever of the two is masked. */
  lemma ConjugatePair(f: Coord -> Spectrum, p: Coord)
    requires HasXYZ(p) && p[2] != 0.0
    ensures HasXYZ(Negate(p))
    ensures DecodedAt(f, Negate(p)) == Conj(DecodedAt(f, p))
  {
    NegateTwice(p);
  }

  /** For a network that already has the symmetry, decode returns exactly the network's values. */
  lemma HermitianDecodesExactly(f: Coord -> Spectrum, p: Coord)
    requires Hermitian(f) && HasXYZ(p)
    ensures DecodedAt(f, p) == f(p)
  {
    if Masked(p) {
      assert f(Negate(p)) == Conj(f(p));
    }
  }

  /**
   * For a symmetric network on a lattice symmetric about its centre pixel,
   * forward's half evaluation gives the image that evaluating the network at
   * every one of the D * D pixels would give.
   */
  lemma {:induction false} SymmetricImageIsFullEvaluation(D: int, f: Coord -> Spectrum, lat: seq<Coord>)
    requires EvenSize(D) && |lat| == D * D
    requires forall x :: 0 <= x < |lat| ==> HasXYZ(lat[x])
    requires Hermitian(f) && PointSymmetric(D, lat)
    ensures forall x :: 0 <= x < D * D ==> SymmetricImage(D, f, lat)[x] == Hartley(f(lat[x]))
  {
    forall x | 0 <= x < D * D
      ensures SymmetricImage(D, f, lat)[x] == Hartley(f(lat[x]))
    {
      if x <= Center(D) || x % D == 0 {
        HermitianDecodesExactly(f, lat[x]);
      } else {
        CenterPixel(D);
        assert D <= x;
        var m := Mirror(D, x);
        assert lat[m] == Negate(lat[x]);
        HermitianDecodesExactly(f, lat[m]);
        assert f(Negate(lat[x])) == Conj(f(lat[x]));
      }
    }
  }

  /**
   * The same for forward_symmetric: a symmetric network on a strip whose row
   * 2c - i is the negation of row i gives the full evaluation of the strip.
   */
  lemma {:induction false} SymmetricStripIsFullEvaluation(c: int, f: Coord -> Spectrum, lat: seq<Coord>)
    requires c >= 0 && |lat| == 2 * c + 1
    requires forall i :: 0 <= i < |lat| ==> HasXYZ(lat[i])
    requires Hermitian(f)
    requires forall i :: 0 <= i < c ==> lat[2 * c - i] == Negate(lat[i])
    ensures forall i :: 0 <= i < |lat| ==> SymmetricStrip(c, f, lat)[i] == Hartley(f(lat[i]))
  {
    forall i | 0 <= i < |lat|
      ensures SymmetricStrip(c, f, lat)[i] == Hartley(f(lat[i]))
    {
      if i <= c {
        HermitianDecodesExactly(f, lat[i]);
      } else {
        var j := 2 * c - i;
        NegateTwice(lat[j]);
        assert lat[i] == Negate(lat[j]);
        HermitianDecodesExactly(f, lat[j]);
        assert f(Negate(lat[j])) == Conj(f(lat[j]));
      }
    }
  }

  /**
   * An odd D x D lattice symmetric about its centre pixel: pixel D * D - 1 - x,
   * which is (D - 1 - r, D - 1 - col) for x = (r, col), holds the negated point.
   */
  ghost predicate OddPointSymmetric(D: int, lat: seq<Coord>)
    requires |lat| == D * D
    requires forall x :: 0 <= x < |lat| ==> HasXYZ(lat[x])
  {
    forall x :: 0 <= x < D * D ==> lat[D * D - 1 - x] == Negate(lat[x])
  }

  /**
   * What forward should give for an odd side length: forward_symmetric with
   * the centre pixel as c decodes the pixels up to the centre and fills every
   * pixel x after it from pixel D * D - 1 - x, its reflection.  For a
   * symmetric network on an odd lattice symmetric about its centre, that is
   * the full evaluation.
   */
  lemma OddGridStripIsFullEvaluation(D: int, f: Coord -> Spectrum, lat: seq<Coord>)
    requires D >= 1 && D % 2 == 1 && |lat| == D * D
    requires forall x :: 0 <= x < |lat| ==> HasXYZ(lat[x])
    requires Hermitian(f) && OddPointSymmetric(D, lat)
    ensures 2 * Center(D) + 1 == D * D
    ensures forall x :: 0 <= x < D * D ==> SymmetricStrip(Center(D), f, lat)[x] == Hartley(f(lat[x]))
  {
    var H := Half(D);
    assert D == 2 * H + 1;
    assert D * D == 2 * (H * D + H) + 1;
    var c := Center(D);
    forall i | 0 <= i < c
      ensures lat[2 * c - i] == Negate(lat[i])
    {
      assert 2 * c - i == D * D - 1 - i;
    }
    SymmetricStripIsFullEvaluation(c, f, lat);
  }

  /**
   * The lattice is symmetric about the centre pixel: every pixel with a
   * reflection inside the grid (off the top row and off the left column)
   * holds the negation of the point at its reflection.
   */
  ghost predicate PointSymmetric(D: int, lat: seq<Coord>)
    requires EvenSize(D) && |lat| == D * D
    requires forall x :: 0 <= x < |lat| ==> HasXYZ(lat[x])
  {
    forall x :: D <= x < D * D && x % D != 0 ==>
      0 <= Mirror(D, x) < D * D && lat[Mirror(D, x)] == Negate(lat[x])
  }

  /**
   * The image forward produces for a D x D lattice: every pixel of all_eval
   * holds the Hartley value of its own decoded point, and every other pixel
   * (those of bottom_rev) the Hartley value of the conjugate of the decoded
   * point at its reflection.
   */
  function SymmetricImage(D: int, f: Coord -> Spectrum, lat: seq<Coord>): (img: seq<real>)
    requires EvenSize(D) && |lat| == D * D
    requires forall x :: 0 <= x < |lat| ==> HasXYZ(lat[x])
    ensures |img| == D * D
  {
    seq(D * D, x requires 0 <= x < D * D => PixelValue(D, f, lat, x))
  }

  function PixelValue(D: int, f: Coord -> Spectrum, lat: seq<Coord>, x: int): real
    requires EvenSize(D) && |lat| == D * D && 0 <= x < D * D
    requires forall x :: 0 <= x < |lat| ==> HasXYZ(lat[x])
  {
    if x <= Center(D) || x % D == 0 then
      Hartley(DecodedAt(f, lat[x]))
    else
      CenterPixel(D);
      Hartley(Conj(DecodedAt(f, lat[Mirror(D, x)])))
  }

  /**
   * The strip forward_symmetric produces from 2c + 1 rows: the first c + 1
   * hold their own Hartley value, and row c + 1 + k the Hartley value of the
   * conjugate at row c - 1 - k, its mirror image about row c.
   */
  function SymmetricStrip(c: int, f: Coord -> Spectrum, lat: seq<Coord>): (img: seq<real>)
    requires c >= 0 && |lat| == 2 * c + 1
    requires forall i :: 0 <= i <= c ==> HasXYZ(lat[i])
    ensures |img| == |lat|
  {
    seq(2 * c + 1, i requires 0 <= i < 2 * c + 1 =>
      if i <= c then Hartley(DecodedAt(f, lat[i])) else Hartley(Conj(DecodedAt(f, lat[2 * c - i]))))
  }

  /** The index facts forward relies on: all of them pixels, each pixel written once, top read from the decoded rows. */
  lemma ForwardIndices(D: int)
    requires EvenSize(D)
    ensures forall t :: 0 <= t < |AllEval(D)| ==> 0 <= AllEval(D)[t] < D * D
    ensures forall t :: 0 <= t < |AllEval(D)| ==> AllEval(D)[t] !in BottomRev(D)
    ensures forall k :: 0 <= k < |BottomRev(D)| ==> 0 <= BottomRev(D)[k] < D * D
    ensures StrictlyIncreasing(AllEval(D)) && StrictlyDecreasing(BottomRev(D))
    ensures |Top(D)| == |BottomRev(D)|
    ensures forall k :: 0 <= k < |Top(D)| ==>
      0 <= Top(D)[k] < |AllEval(D)| && AllEval(D)[Top(D)[k]] == Top(D)[k]
  {
    Partition(D);
    AllEvalMembers(D);
    BottomRevDecreasing(D);
    MirrorPairs(D);
    TopReadsItself(D);
    forall t | 0 <= t < |AllEval(D)|
      ensures 0 <= AllEval(D)[t] < D * D
    {
      assert AllEval(D)[t] in AllEval(D) + BottomRev(D);
    }
    forall k | 0 <= k < |BottomRev(D)|
      ensures 0 <= BottomRev(D)[k] < D * D
    {
      assert BottomRev(D)[k] in AllEval(D) + BottomRev(D);
    }
  }

  /**
   * Scattering the decoded rows as forward does yields the symmetric image:
   * re - im at every all_eval pixel and re + im of row top[k] at bottom_rev[k]
   * together fill every pixel with its value.
   */
  lemma ScatteredImage(D: int, f: Coord -> Spectrum, lat: seq<Coord>, half: seq<Spectrum>, img: seq<real>)
    requires EvenSize(D) && |lat| == D * D && |img| == D * D
    requires forall x :: 0 <= x < |lat| ==> HasXYZ(lat[x])
    requires |half| == |AllEval(D)|
    requires forall t :: 0 <= t < |half| ==>
      0 <= AllEval(D)[t] < D * D && half[t] == DecodedAt(f, lat[AllEval(D)[t]])
    requires forall t :: 0 <= t < |half| ==> img[AllEval(D)[t]] == Hartley(half[t])
    requires forall k :: 0 <= k < |BottomRev(D)| && k < |Top(D)| ==>
      0 <= BottomRev(D)[k] < D * D && 0 <= Top(D)[k] < |half| &&
      img[BottomRev(D)[k]] == half[Top(D)[k]].re + half[Top(D)[k]].im
    ensures img == SymmetricImage(D, f, lat)
  {
    forall x | 0 <= x < D * D
      ensures img[x] == PixelValue(D, f, lat, x)
    {
      if x <= Center(D) || x % D == 0 {
        EvaluatedPixel(D, f, lat, half, img, x);
      } else {
        MirroredPixel(D, f, lat, half, img, x);
      }
    }
  }

  /** A pixel of all_eval holds re - im of its own decoded row. */
  lemma EvaluatedPixel(D: int, f: Coord -> Spectrum, lat: seq<Coord>, half: seq<Spectrum>, img: seq<real>, x: int)
    requires EvenSize(D) && |lat| == D * D && |img| == D * D
    requires forall x :: 0 <= x < |lat| ==> HasXYZ(lat[x])
    requires |half| == |AllEval(D)|
    requires forall t :: 0 <= t < |half| ==>
      0 <= AllEval(D)[t] < D * D && half[t] == DecodedAt(f, lat[AllEval(D)[t]])
    requires forall t :: 0 <= t < |half| ==> img[AllEval(D)[t]] == Hartley(half[t])
    requires 0 <= x < D * D && (x <= Center(D) || x % D == 0)
    ensures img[x] == PixelValue(D, f, lat, x)
  {
    assert x in AllEval(D) by { AllEvalMembers(D); }
    var t :| 0 <= t < |AllEval(D)| && AllEval(D)[t] == x;
    assert img[x] == Hartley(half[t]);
  }

  /** A pixel of bottom_rev holds re + im of the decoded row at its reflection. */
  lemma MirroredPixel(D: int, f: Coord -> Spectrum, lat: seq<Coord>, half: seq<Spectrum>, img: seq<real>, x: int)
    requires EvenSize(D) && |lat| == D * D && |img| == D * D
    requires forall x :: 0 <= x < |lat| ==> HasXYZ(lat[x])
    requires |half| == |AllEval(D)|
    requires forall t :: 0 <= t < |half| ==>
      0 <= AllEval(D)[t] < D * D && half[t] == DecodedAt(f, lat[AllEval(D)[t]])
    requires forall k :: 0 <= k < |BottomRev(D)| && k < |Top(D)| ==>
      0 <= BottomRev(D)[k] < D * D && 0 <= Top(D)[k] < |half| &&
      img[BottomRev(D)[k]] == half[Top(D)[k]].re + half[Top(D)[k]].im
    requires 0 <= x < D * D && !(x <= Center(D) || x % D == 0)
    ensures img[x] == PixelValue(D, f, lat, x)
  {
    assert x in BottomRev(D) by { BottomRevMembers(D); }
    var k :| 0 <= k < |BottomRev(D)| && BottomRev(D)[k] == x;
    assert k < |Top(D)| && Top(D)[k] == Mirror(D, x) by { MirrorPairs(D); }
    var m := Top(D)[k];
    assert AllEval(D)[m] == m by { TopReadsItself(D); }
    assert img[x] == half[m].re + half[m].im;
  }

  // ---------------------------------------------------------------------------
  // forward as torch runs it, for every side length whose stores go through

  /** image[..., idx] = vals: pixel idx[t] receives vals[t], one store after another. */
  function Store(img: seq<real>, idx: seq<int>, vals: seq<real>): (r: seq<real>)
    requires |idx| == |vals|
    requires forall t :: 0 <= t < |idx| ==> 0 <= idx[t] < |img|
    ensures |r| == |img|
    decreases |idx|
  {
    if idx == [] then img else Store(img[idx[0] := vals[0]], idx[1..], vals[1..])
  }

  /** With no index repeated, every listed pixel ends up with its value and every other pixel keeps its own. */
  lemma {:induction false} StoreAt(img: seq<real>, idx: seq<int>, vals: seq<real>)
    requires |idx| == |vals|
    requires forall t :: 0 <= t < |idx| ==> 0 <= idx[t] < |img|
    requires Distinct(idx)
    ensures forall t :: 0 <= t < |idx| ==> Store(img, idx, vals)[idx[t]] == vals[t]
    ensures forall x :: 0 <= x < |img| && x !in idx ==> Store(img, idx, vals)[x] == img[x]
    decreases |idx|
  {
    if idx != [] {
      var img', rest, restVals := img[idx[0] := vals[0]], idx[1..], vals[1..];
      assert Distinct(rest) by {
        forall i, j | 0 <= i < j < |rest|
          ensures rest[i] != rest[j]
        {
          assert rest[i] == idx[i + 1] && rest[j] == idx[j + 1];
        }
      }
      StoreAt(img', rest, restVals);
      assert Store(img, idx, vals) == Store(img', rest, restVals);
      assert idx[0] !in rest by {
        forall j | 0 <= j < |rest|
          ensures rest[j] != idx[0]
        {
          assert rest[j] == idx[j + 1];
        }
      }
      forall t | 1 <= t < |idx|
        ensures Store(img, idx, vals)[idx[t]] == vals[t]
      {
        assert idx[t] == rest[t - 1] && vals[t] == restVals[t - 1];
      }
      forall x | 0 <= x < |img| && x !in idx
        ensures Store(img, idx, vals)[x] == img[x]
      {
        assert x != idx[0];
      }
    }
  }

  /**
   * torch's broadcast of the values of a store to n target pixels: a single
   * value is repeated, otherwise the counts must agree.
   */
  function Broadcast(vals: seq<real>, n: nat): (r: seq<real>)
    requires |vals| == n || |vals| == 1
    ensures |r| == n
    ensures forall k :: 0 <= k < n ==> r[k] == vals[if |vals| == 1 then 0 else k]
  {
    if |vals| == 1 then seq(n, _ => vals[0]) else vals
  }

  /**
   * The indices of forward's two stores into an n-pixel image: all of them
   * pixels, neither store repeating a pixel, the two stores never meeting,
   * top addressing the decoded rows, and top as long as bottom_rev or a
   * single entry to broadcast.
   */
  predicate ValidStores(n: int, A: seq<int>, T: seq<int>, B: seq<int>)
  {
    (forall t :: 0 <= t < |A| ==> 0 <= A[t] < n) &&
    (forall k :: 0 <= k < |B| ==> 0 <= B[k] < n) &&
    (forall k :: 0 <= k < |T| ==> 0 <= T[k] < |A|) &&
    Distinct(A) && Distinct(B) &&
    (forall t :: 0 <= t < |A| ==> A[t] !in B) &&
    (|T| == |B| || |T| == 1)
  }

  /** The index sets of a D x D image make valid stores. */
  predicate StoreIndicesValid(D: int)
    requires D >= 1
  {
    ValidStores(D * D, AllEval(D), Top(D), BottomRev(D))
  }

  /** Whenever the final store goes through, so do all the others. */
  lemma StoreIndicesValidWhenRuns(D: int)
    requires D >= 1 && MirrorStoreRuns(D)
    ensures StoreIndicesValid(D)
  {
    if EvenSize(D) {
      EvenStoreIndices(D);
    } else if D == 3 {
      ThreeByThreeStoreIndices(D);
    } else {
      assert D == 1 by {
        MirrorStoreRunsExactly(D);
      }
      OneByOneStoreIndices(D);
    }
  }

  lemma EvenStoreIndices(D: int)
    requires EvenSize(D)
    ensures StoreIndicesValid(D)
  {
    ForwardIndices(D);
    assert Distinct(AllEval(D)) && Distinct(BottomRev(D));
  }

  lemma ThreeByThreeStoreIndices(D: int)
    requires D == 3
    ensures StoreIndicesValid(D)
  {
    assert AllEval(D) == [0, 1, 2, 3, 4, 6] && Top(D) == [4] && BottomRev(D) == [8, 7, 5] by {
      ThreeByThree();
    }
    ThreeByThreeStores();
  }

  lemma ThreeByThreeStores()
    ensures ValidStores(9, [0, 1, 2, 3, 4, 6], [4], [8, 7, 5])
  {
    var A, B := [0, 1, 2, 3, 4, 6], [8, 7, 5];
    assert forall t :: 0 <= t < |A| ==> A[t] !in B;
  }

  lemma OneByOneStoreIndices(D: int)
    requires D == 1
    ensures StoreIndicesValid(D)
  {
    assert AllEval(D) == [0] && Top(D) == [] && BottomRev(D) == [] by {
      OneByOneSets();
    }
    OneByOneStores();
  }

  lemma OneByOneSets()
    ensures AllEval(1) == [0] && Top(1) == [] && BottomRev(1) == []
  {
    assert |AllEval(1)| == 1 && AllEval(1)[0] == 0;
  }

  lemma OneByOneStores()
    ensures ValidStores(1, [0], [], [])
  {
  }

  /**
   * Lines 130-134 on the decoded rows of the pixels A: the Hartley values
   * stored at A into an image of zeros, then re + im of the rows T addresses
   * stored at B, a single value broadcast to all of them.
   */
  function Scatter(n: nat, A: seq<int>, T: seq<int>, B: seq<int>, half: seq<Spectrum>): (img: seq<real>)
    requires ValidStores(n, A, T, B) && |half| == |A|
    ensures |img| == n
  {
    var evaluated := Store(seq(n, _ => 0.0), A, seq(|A|, t requires 0 <= t < |A| => Hartley(half[t])));
    Store(evaluated, B, Broadcast(seq(|T|, k requires 0 <= k < |T| => half[T[k]].re + half[T[k]].im), |B|))
  }

  /** Every pixel of A holds re - im of its row, and pixel B[k] re + im of the row T addresses for it. */
  lemma ScatterEvaluatedPixels(n: nat, A: seq<int>, T: seq<int>, B: seq<int>, half: seq<Spectrum>)
    requires ValidStores(n, A, T, B) && |half| == |A|
    ensures forall t :: 0 <= t < |A| ==> Scatter(n, A, T, B, half)[A[t]] == Hartley(half[t])
  {
    var zero := seq(n, _ => 0.0);
    var hartley := seq(|A|, t requires 0 <= t < |A| => Hartley(half[t]));
    var evaluated := Store(zero, A, hartley);
    var mirrored := Broadcast(seq(|T|, k requires 0 <= k < |T| => half[T[k]].re + half[T[k]].im), |B|);
    assert Scatter(n, A, T, B, half) == Store(evaluated, B, mirrored);
    StoreAt(zero, A, hartley);
    StoreAt(evaluated, B, mirrored);
    forall t | 0 <= t < |A|
      ensures Store(evaluated, B, mirrored)[A[t]] == Hartley(half[t])
    {
      assert A[t] !in B;
    }
  }

  lemma ScatterMirroredPixels(n: nat, A: seq<int>, T: seq<int>, B: seq<int>, half: seq<Spectrum>)
    requires ValidStores(n, A, T, B) && |half| == |A|
    ensures forall k :: 0 <= k < |B| ==>
      var j := if |T| == 1 then 0 else k;
      Scatter(n, A, T, B, half)[B[k]] == half[T[j]].re + half[T[j]].im
  {
    var zero := seq(n, _ => 0.0);
    var hartley := seq(|A|, t requires 0 <= t < |A| => Hartley(half[t]));
    var evaluated := Store(zero, A, hartley);
    var mirrored := Broadcast(seq(|T|, k requires 0 <= k < |T| => half[T[k]].re + half[T[k]].im), |B|);
    assert Scatter(n, A, T, B, half) == Store(evaluated, B, mirrored);
    StoreAt(evaluated, B, mirrored);
  }

  /**
   * forward as torch runs it on one D x D lattice: the all_eval rows are
   * decoded, their Hartley values stored at all_eval, and re + im of the rows
   * read back through top stored at bottom_rev, a single value broadcast to
   * all of them.  Pixels neither store reaches keep the buffer's initial 0.
   */
  function ForwardAsWritten(D: int, f: Coord -> Spectrum, lat: seq<Coord>): (img: seq<real>)
    requires D >= 1 && MirrorStoreRuns(D) && |lat| == D * D
    requires forall x :: 0 <= x < |lat| ==> HasXYZ(lat[x])
    ensures |img| == D * D
  {
    StoreIndicesValidWhenRuns(D);
    Scatter(D * D, AllEval(D), Top(D), BottomRev(D), EvaluatedRows(AllEval(D), f, lat))
  }

  /** decode on the gathered rows A of the lattice, row by row. */
  function EvaluatedRows(A: seq<int>, f: Coord -> Spectrum, lat: seq<Coord>): (half: seq<Spectrum>)
    requires forall t :: 0 <= t < |A| ==> 0 <= A[t] < |lat|
    requires forall x :: 0 <= x < |lat| ==> HasXYZ(lat[x])
    ensures |half| == |A|
    ensures forall t :: 0 <= t < |half| ==> half[t] == DecodedAt(f, lat[A[t]])
  {
    seq(|A|, t requires 0 <= t < |A| => DecodedAt(f, lat[A[t]]))
  }

  /**
   * What each pixel of forward's image holds, for every side length whose
   * stores go through: re - im of the decoded row at each all_eval pixel, and
   * at bottom_rev[k] re + im of the decoded row that top[k] addresses, or that
   * top[0] addresses when top has a single entry to broadcast.
   */
  lemma ForwardAsWrittenPixels(D: int, f: Coord -> Spectrum, lat: seq<Coord>)
    requires D >= 1 && MirrorStoreRuns(D) && |lat| == D * D
    requires forall x :: 0 <= x < |lat| ==> HasXYZ(lat[x])
    ensures StoreIndicesValid(D)
    ensures forall t :: 0 <= t < |AllEval(D)| ==>
      ForwardAsWritten(D, f, lat)[AllEval(D)[t]] == Hartley(DecodedAt(f, lat[AllEval(D)[t]]))
    ensures forall k :: 0 <= k < |BottomRev(D)| ==>
      var j := if |Top(D)| == 1 then 0 else k;
      ForwardAsWritten(D, f, lat)[BottomRev(D)[k]] == Hartley(Conj(DecodedAt(f, lat[AllEval(D)[Top(D)[j]]])))
  {
    StoreIndicesValidWhenRuns(D);
    ForwardAsWrittenEvaluated(D, f, lat);
    ForwardAsWrittenMirrored(D, f, lat);
  }

  lemma ForwardAsWrittenEvaluated(D: int, f: Coord -> Spectrum, lat: seq<Coord>)
    requires D >= 1 && MirrorStoreRuns(D) && |lat| == D * D
    requires forall x :: 0 <= x < |lat| ==> HasXYZ(lat[x])
    ensures StoreIndicesValid(D)
    ensures forall t :: 0 <= t < |AllEval(D)| ==>
      ForwardAsWritten(D, f, lat)[AllEval(D)[t]] == Hartley(DecodedAt(f, lat[AllEval(D)[t]]))
  {
    StoreIndicesValidWhenRuns(D);
    ScatterEvaluatedPixels(D * D, AllEval(D), Top(D), BottomRev(D), EvaluatedRows(AllEval(D), f, lat));
  }

  lemma ForwardAsWrittenMirrored(D: int, f: Coord -> Spectrum, lat: seq<Coord>)
    requires D >= 1 && MirrorStoreRuns(D) && |lat| == D * D
    requires forall x :: 0 <= x < |lat| ==> HasXYZ(lat[x])
    ensures StoreIndicesValid(D)
    ensures forall k :: 0 <= k < |BottomRev(D)| ==>
      var j := if |Top(D)| == 1 then 0 else k;
      ForwardAsWritten(D, f, lat)[BottomRev(D)[k]] == Hartley(Conj(DecodedAt(f, lat[AllEval(D)[Top(D)[j]]])))
  {
    StoreIndicesValidWhenRuns(D);
    var A, T, B := AllEval(D), Top(D), BottomRev(D);
    var half := EvaluatedRows(A, f, lat);
    ScatterMirroredPixels(D * D, A, T, B, half);
  }

  /** For an even side length, forward as torch runs it is the symmetric image. */
  lemma ForwardAsWrittenIsSymmetricImage(D: int, f: Coord -> Spectrum, lat: seq<Coord>)
    requires EvenSize(D) && |lat| == D * D
    requires forall x :: 0 <= x < |lat| ==> HasXYZ(lat[x])
    ensures MirrorStoreRuns(D)
    ensures ForwardAsWritten(D, f, lat) == SymmetricImage(D, f, lat)
  {
    ForwardIndices(D);
    var A := AllEval(D);
    var half := seq(|A|, t requires 0 <= t < |A| => DecodedAt(f, lat[A[t]]));
    EvenStores(D, f, lat, half);
    ScatteredImage(D, f, lat, half, ForwardAsWritten(D, f, lat));
  }

  /** On an even lattice, the stores of forward put re - im and re + im of the decoded all_eval rows where the symmetric image wants them. */
  lemma EvenStores(D: int, f: Coord -> Spectrum, lat: seq<Coord>, half: seq<Spectrum>)
    requires EvenSize(D) && |lat| == D * D
    requires forall x :: 0 <= x < |lat| ==> HasXYZ(lat[x])
    requires |half| == |AllEval(D)|
    requires forall t :: 0 <= t < |half| ==>
      0 <= AllEval(D)[t] < D * D && half[t] == DecodedAt(f, lat[AllEval(D)[t]])
    ensures MirrorStoreRuns(D)
    ensures forall t :: 0 <= t < |half| ==> ForwardAsWritten(D, f, lat)[AllEval(D)[t]] == Hartley(half[t])
    ensures forall k :: 0 <= k < |BottomRev(D)| && k < |Top(D)| ==>
      0 <= BottomRev(D)[k] < D * D && 0 <= Top(D)[k] < |half| &&
      ForwardAsWritten(D, f, lat)[BottomRev(D)[k]] == half[Top(D)[k]].re + half[Top(D)[k]].im
  {
    assert MirrorStoreRuns(D) by {
      MirrorStoreRunsExactly(D);
    }
    ForwardAsWrittenEvaluated(D, f, lat);
    EvenMirroredStores(D, f, lat);
  }

  /** For an even side length top has no single entry to broadcast: bottom_rev[k] gets the value of top[k]. */
  lemma EvenMirroredStores(D: int, f: Coord -> Spectrum, lat: seq<Coord>)
    requires EvenSize(D) && MirrorStoreRuns(D) && |lat| == D * D
    requires forall x :: 0 <= x < |lat| ==> HasXYZ(lat[x])
    ensures StoreIndicesValid(D)
    ensures forall k :: 0 <= k < |BottomRev(D)| && k < |Top(D)| ==>
      ForwardAsWritten(D, f, lat)[BottomRev(D)[k]] == Hartley(Conj(DecodedAt(f, lat[AllEval(D)[Top(D)[k]]])))
  {
    assert |Top(D)| != 1 by {
      TopLength(D);
      if Half(D) > 1 {
        PixelArith.MulAtLeastOne(Half(D) - 1, D);
      }
    }
    ForwardAsWrittenMirrored(D, f, lat);
  }

  /** For D = 1 both mirror sets are empty, and forward returns the one decoded pixel. */
  lemma OneByOne(f: Coord -> Spectrum, lat: seq<Coord>)
    requires |lat| == 1 && HasXYZ(lat[0])
    ensures MirrorStoreRuns(1)
    ensures ForwardAsWritten(1, f, lat) == [Hartley(DecodedAt(f, lat[0]))]
  {
    MirrorStoreRunsExactly(1);
    ForwardAsWrittenPixels(1, f, lat);
    assert AllEval(1)[0] == 0;
  }

  /** A network with the symmetry: real part 1, imaginary part the x coordinate. */
  function Wave(p: Coord): Spectrum
  {
    Spectrum(1.0, if |p| > 0 then p[0] else 0.0)
  }

  lemma WaveHermitian()
    ensures Hermitian(Wave)
  {
    forall p: Coord | HasXYZ(p)
      ensures Wave(Negate(p)) == Conj(Wave(p))
    {
    }
  }

  /** The 3 x 3 lattice of the points (col - 1, row - 1, 0). */
  const Ramp: seq<Coord> :=
    [[-1.0, -1.0, 0.0], [0.0, -1.0, 0.0], [1.0, -1.0, 0.0],
     [-1.0, 0.0, 0.0], [0.0, 0.0, 0.0], [1.0, 0.0, 0.0],
     [-1.0, 1.0, 0.0], [0.0, 1.0, 0.0], [1.0, 1.0, 0.0]]

  lemma RampSymmetric()
    ensures |Ramp| == 9 && forall x :: 0 <= x < 9 ==> HasXYZ(Ramp[x])
    ensures OddPointSymmetric(3, Ramp)
  {
    forall x | 0 <= x < 9
      ensures Ramp[8 - x] == Negate(Ramp[x])
    {
      assert |Ramp[x]| == 3 && Ramp[x][3..] == [];
      assert Ramp[8 - x] == [-Ramp[x][0], -Ramp[x][1], -Ramp[x][2]];
    }
  }

  /**
   * On the 3 x 3 lattice top holds the centre pixel alone, and torch
   * broadcasts its value to all three pixels of bottom_rev: pixel 8 gets
   * re + im at the centre point, 1, where the full evaluation, which the strip
   * of forward_symmetric with c = 4 gives, holds 0.
   */
  lemma ThreeByThreeImage()
    ensures |Ramp| == 9 && forall x :: 0 <= x < 9 ==> HasXYZ(Ramp[x])
    ensures MirrorStoreRuns(3)
    ensures ForwardAsWritten(3, Wave, Ramp)[8] == 1.0
    ensures Hartley(Wave(Ramp[8])) == 0.0
    ensures SymmetricStrip(Center(3), Wave, Ramp)[8] == Hartley(Wave(Ramp[8]))
  {
    RampSymmetric();
    assert Ramp[4] == [0.0, 0.0, 0.0] && Ramp[8] == [1.0, 1.0, 0.0];
    BroadcastDiffers(3, Ramp);
    StripFullAtLast(3, Ramp);
  }

  /** On a point-symmetric 3 x 3 lattice, pixel 8 of the strip of forward_symmetric is the full evaluation of Wave. */
  lemma StripFullAtLast(D: int, lat: seq<Coord>)
    requires D == 3 && |lat| == D * D && forall x :: 0 <= x < D * D ==> HasXYZ(lat[x])
    requires OddPointSymmetric(D, lat)
    ensures SymmetricStrip(Center(D), Wave, lat)[8] == Hartley(Wave(lat[8]))
  {
    WaveHermitian();
    OddGridStripIsFullEvaluation(D, Wave, lat);
  }

  /**
   * On a 3 x 3 lattice centred on the origin whose last point is (1, 1, 0),
   * pixel 8 of forward's image is 1 while the full evaluation there is 0.
   */
  lemma BroadcastDiffers(D: int, lat: seq<Coord>)
    requires D == 3 && |lat| == D * D && forall x :: 0 <= x < D * D ==> HasXYZ(lat[x])
    requires lat[4] == [0.0, 0.0, 0.0] && lat[8] == [1.0, 1.0, 0.0]
    ensures MirrorStoreRuns(D)
    ensures ForwardAsWritten(D, Wave, lat)[8] == 1.0
    ensures Hartley(Wave(lat[8])) == 0.0
  {
    BroadcastCentre(D, lat);
    assert Wave(lat[8]) == Spectrum(1.0, 1.0);
  }

  /** On a 3 x 3 lattice centred on the origin, pixel 8 of the image gets the broadcast value re + im = 1 of the centre row. */
  lemma BroadcastCentre(D: int, lat: seq<Coord>)
    requires D == 3 && |lat| == D * D && forall x :: 0 <= x < D * D ==> HasXYZ(lat[x])
    requires lat[4] == [0.0, 0.0, 0.0]
    ensures MirrorStoreRuns(D) && ForwardAsWritten(D, Wave, lat)[8] == 1.0
  {
    var centre := lat[4];
    assert !Masked(centre);
    var v := DecodedAt(Wave, centre);
    assert v == Spectrum(1.0, 0.0);
    assert Hartley(Conj(v)) == 1.0;
    ThreeByThreeBroadcast(D, Wave, lat);
  }

  /** On any 3 x 3 lattice, the three pixels of bottom_rev all get re + im of the centre row. */
  lemma ThreeByThreeBroadcast(D: int, f: Coord -> Spectrum, lat: seq<Coord>)
    requires D == 3
    requires |lat| == D * D && forall x :: 0 <= x < D * D ==> HasXYZ(lat[x])
    ensures MirrorStoreRuns(D)
    ensures var v := Hartley(Conj(DecodedAt(f, lat[4])));
      ForwardAsWritten(D, f, lat)[8] == v && ForwardAsWritten(D, f, lat)[7] == v && ForwardAsWritten(D, f, lat)[5] == v
  {
    var A, T, B := AllEval(D), Top(D), BottomRev(D);
    assert B == [8, 7, 5] && T == [4] && A[4] == 4 by {
      ThreeByThree();
    }
    SingleTopBroadcast(D, f, lat);
    var img, v := ForwardAsWritten(D, f, lat), Hartley(Conj(DecodedAt(f, lat[4])));
    assert img[B[0]] == v && img[B[1]] == v && img[B[2]] == v;
  }

  /** When top has a single entry, every pixel of bottom_rev gets re + im of the row that entry addresses. */
  lemma SingleTopBroadcast(D: int, f: Coord -> Spectrum, lat: seq<Coord>)
    requires D >= 1 && |Top(D)| == 1 && |lat| == D * D
    requires forall x :: 0 <= x < |lat| ==> HasXYZ(lat[x])
    ensures MirrorStoreRuns(D) && StoreIndicesValid(D)
    ensures forall k :: 0 <= k < |BottomRev(D)| ==>
      ForwardAsWritten(D, f, lat)[BottomRev(D)[k]] == Hartley(Conj(DecodedAt(f, lat[AllEval(D)[Top(D)[0]]])))
  {
    ForwardAsWrittenMirrored(D, f, lat);
  }

  /** lattice[..., idx, :]: a fresh copy of the rows at the given indices. */
  method Gather(lattice: array<Coord>, idx: seq<int>) returns (rows: array<Coord>)
    requires forall t :: 0 <= t < |idx| ==> 0 <= idx[t] < lattice.Length
    ensures fresh(rows) && rows.Length == |idx|
    ensures forall t :: 0 <= t < |idx| ==> rows[t] == lattice[idx[t]]
  {
    rows := new Coord[|idx|];
    for t := 0 to |idx|
      modifies rows
      invariant forall u :: 0 <= u < t ==> rows[u] == lattice[idx[u]]
    {
      rows[t] := lattice[idx[t]];
    }
  }

  /** image[idx] = re - im of the decoded rows, one pixel per row. */
  method ScatterEvaluated(image: array<real>, idx: seq<int>, vals: array<Spectrum>)
    requires vals.Length == |idx|
    requires forall t :: 0 <= t < |idx| ==> 0 <= idx[t] < image.Length
    requires StrictlyIncreasing(idx)
    modifies image
    ensures forall t :: 0 <= t < |idx| ==> image[idx[t]] == Hartley(vals[t])
    ensures forall x :: 0 <= x < image.Length && x !in idx ==> image[x] == old(image[x])
  {
    for t := 0 to |idx|
      invariant forall u :: 0 <= u < t ==> image[idx[u]] == Hartley(vals[u])
      invariant forall x :: 0 <= x < image.Length && x !in idx[..t] ==> image[x] == old(image[x])
    {
      image[idx[t]] := vals[t].re - vals[t].im;
    }
  }

  /** image[dst] = re + im of the decoded row src[k], for each k. */
  method ScatterMirrored(image: array<real>, dst: seq<int>, src: seq<int>, vals: array<Spectrum>)
    requires |src| == |dst|
    requires forall k :: 0 <= k < |dst| ==> 0 <= dst[k] < image.Length
    requires forall k :: 0 <= k < |src| ==> 0 <= src[k] < vals.Length
    requires StrictlyDecreasing(dst)
    modifies image
    ensures forall k :: 0 <= k < |dst| ==> image[dst[k]] == vals[src[k]].re + vals[src[k]].im
    ensures forall x :: 0 <= x < image.Length && x !in dst ==> image[x] == old(image[x])
  {
    for k := 0 to |dst|
      invariant forall u :: 0 <= u < k ==> image[dst[u]] == vals[src[u]].re + vals[src[u]].im
      invariant forall x :: 0 <= x < image.Length && x !in dst[..k] ==> image[x] == old(image[x])
    {
      image[dst[k]] := vals[src[k]].re + vals[src[k]].im;
    }
  }

  /**
   * The two stores of forward_symmetric: re - im of the c + 1 decoded rows,
   * then re + im of the same rows taken in the order c - 1, ..., 0.
   */
  method StripFromHalf(half: array<Spectrum>, c: int) returns (image: array<real>)
    requires c >= 0 && half.Length == c + 1
    ensures fresh(image) && image.Length == 2 * c + 1
    ensures forall i :: 0 <= i <= c ==> image[i] == Hartley(half[i])
    ensures forall i :: c < i < 2 * c + 1 ==> image[i] == Hartley(Conj(half[2 * c - i]))
  {
    image := new real[2 * c + 1];
    for i := 0 to c + 1
      modifies image
      invariant forall j :: 0 <= j < i ==> image[j] == Hartley(half[j])
    {
      image[i] := half[i].re - half[i].im;
    }
    for k := 0 to c
      modifies image
      invariant forall j :: 0 <= j <= c ==> image[j] == Hartley(half[j])
      invariant forall j :: c < j < c + 1 + k ==> image[j] == Hartley(Conj(half[2 * c - j]))
    {
      image[c + 1 + k] := half[c - 1 - k].re + half[c - 1 - k].im;
    }
  }

  class FTSliceDecoder {
    const D: int
    const D2: int
    const decoder: Coord -> Spectrum
    const center: int
    const extra: seq<int>
    const allEval: seq<int>
    const top: seq<int>
    const bottomRev: seq<int>

    /** The index sets are those of the image side length D. */
    predicate Valid()
    {
      D >= 1 && D2 == Half(D) && center == Center(D) && extra == Extra(D) &&
      allEval == AllEval(D) && top == Top(D) && bottomRev == BottomRev(D)
    }

    constructor (D: int, decoder: Coord -> Spectrum)
      requires D >= 1
      ensures Valid() && this.D == D && this.decoder == decoder
    {
      this.D := D;
      this.decoder := decoder;
      D2 := Half(D);
      center := Center(D);
      extra := Extra(D);
      allEval := AllEval(D);
      top := Top(D);
      bottomRev := BottomRev(D);
    }

    /**
     * decode on rows 0 .. n - 1 of the lattice (a view of the caller's
     * buffer): the mask z > 0 is taken first, the masked rows are negated in
     * place, the network is evaluated on every row, and the imaginary channel
     * of the masked rows is negated.
     */
    method Decode(lattice: array<Coord>, n: int) returns (result: array<Spectrum>)
      requires 0 <= n <= lattice.Length
      requires forall i :: 0 <= i < n ==> HasXYZ(lattice[i])
      modifies lattice
      ensures fresh(result) && result.Length == n
      ensures forall i :: 0 <= i < n ==> lattice[i] == Fold(old(lattice[i]))
      ensures forall i :: n <= i < lattice.Length ==> lattice[i] == old(lattice[i])
      ensures forall i :: 0 <= i < n ==> result[i] == DecodedAt(decoder, old(lattice[i]))
    {
      var w := FoldRows(lattice, n);
      result := Evaluate(lattice, n);
      ConjugateMasked(result, w);
    }

    /**
     * forward on one D x D lattice.  The rows of all_eval are gathered into a
     * copy (advanced indexing), so the caller's lattice is left as it was;
     * they are decoded, re - im is stored at each all_eval pixel, and each
     * bottom_rev[k] pixel gets re + im of the decoded row top[k], which is
     * re - im of its conjugate.  Every pixel is written exactly once.
     */
    method Forward(lattice: array<Coord>) returns (image: array<real>)
      requires Valid() && EvenSize(D)
      requires lattice.Length == D * D
      requires forall x :: 0 <= x < lattice.Length ==> HasXYZ(lattice[x])
      ensures fresh(image)
      ensures image[..] == SymmetricImage(D, decoder, lattice[..])
    {
      var half := DecodeEvaluated(lattice);
      image := Assemble(half, lattice[..]);
    }

    /** top_half = decode(lattice[..., all_eval, :]), on a gathered copy of the rows. */
    method DecodeEvaluated(lattice: array<Coord>) returns (half: array<Spectrum>)
      requires Valid() && EvenSize(D)
      requires lattice.Length == D * D
      requires forall x :: 0 <= x < lattice.Length ==> HasXYZ(lattice[x])
      ensures fresh(half) && half.Length == |allEval|
      ensures forall t :: 0 <= t < half.Length ==>
        0 <= allEval[t] < D * D && half[t] == DecodedAt(decoder, lattice[allEval[t]])
    {
      ForwardIndices(D);
      var rows := Gather(lattice, allEval);
      half := Decode(rows, rows.Length);
    }

    /** The image buffer filled from the decoded rows by the two scatters of forward. */
    method Assemble(half: array<Spectrum>, ghost lat: seq<Coord>) returns (image: array<real>)
      requires Valid() && EvenSize(D)
      requires |lat| == D * D && forall x :: 0 <= x < |lat| ==> HasXYZ(lat[x])
      requires half.Length == |allEval|
      requires forall t :: 0 <= t < half.Length ==>
        0 <= allEval[t] < D * D && half[t] == DecodedAt(decoder, lat[allEval[t]])
      ensures fresh(image)
      ensures image[..] == SymmetricImage(D, decoder, lat)
    {
      ForwardIndices(D);
      image := new real[D * D];
      ScatterEvaluated(image, allEval, half);
      ghost var evaluated := image[..];
      ScatterMirrored(image, bottomRev, top, half);
      ghost var img := image[..];
      assert forall t :: 0 <= t < half.Length ==> img[allEval[t]] == evaluated[allEval[t]];
      ScatteredImage(D, decoder, lat, half[..], img);
    }

    /**
     * forward_symmetric on a strip of 2c + 1 rows whose centre row is c.  The
     * first c + 1 rows are decoded through a view of the caller's buffer, so
     * decode's in-place negation of the masked rows reaches the caller; row
     * i <= c gets re - im of its decoded value and row c + 1 + k gets re + im
     * of decoded row c - 1 - k.
     */
    method ForwardSymmetric(lattice: array<Coord>, c: int) returns (image: array<real>)
      requires c >= 0 && lattice.Length == 2 * c + 1
      requires forall i :: 0 <= i <= c ==> HasXYZ(lattice[i])
      modifies lattice
      ensures fresh(image)
      ensures image[..] == SymmetricStrip(c, decoder, old(lattice[..]))
      ensures forall i :: 0 <= i <= c ==> lattice[i] == Fold(old(lattice[i]))
      ensures forall i :: c < i < lattice.Length ==> lattice[i] == old(lattice[i])
    {
      ghost var rows := lattice[..];
      var half := Decode(lattice, c + 1);
      image := StripFromHalf(half, c);
      assert image[..] == SymmetricStrip(c, decoder, rows);
    }

    /** The first half of decode: the mask z > 0, and the masked rows negated in place. */
    method FoldRows(lattice: array<Coord>, n: int) returns (w: array<bool>)
      requires 0 <= n <= lattice.Length
      requires forall i :: 0 <= i < n ==> HasXYZ(lattice[i])
      modifies lattice
      ensures fresh(w) && w.Length == n
      ensures forall i :: 0 <= i < n ==> lattice[i] == Fold(old(lattice[i]))
      ensures forall i :: 0 <= i < n ==> w[i] == Masked(old(lattice[i]))
      ensures forall i :: n <= i < lattice.Length ==> lattice[i] == old(lattice[i])
    {
      ghost var rows := lattice[..];
      w := new bool[n];
      for i := 0 to n
        modifies w
        invariant forall j :: 0 <= j < i ==> w[j] == Masked(rows[j])
      {
        w[i] := Masked(lattice[i]);
      }
      for i := 0 to n
        modifies lattice
        invariant forall j :: 0 <= j < i ==> lattice[j] == Fold(rows[j])
        invariant forall j :: i <= j < lattice.Length ==> lattice[j] == rows[j]
      {
        if w[i] {
          lattice[i] := Negate(lattice[i]);
        }
      }
    }

    /** result = decoder(lattice): the network on each of the first n rows. */
    method Evaluate(lattice: array<Coord>, n: int) returns (result: array<Spectrum>)
      requires 0 <= n <= lattice.Length
      ensures fresh(result) && result.Length == n
      ensures forall i :: 0 <= i < n ==> result[i] == decoder(lattice[i])
    {
      result := new Spectrum[n];
      for i := 0 to n
        modifies result
        invariant forall j :: 0 <= j < i ==> result[j] == decoder(lattice[j])
      {
        result[i] := decoder(lattice[i]);
      }
    }

    /** The imaginary channel negated on the masked rows, in place. */
    method ConjugateMasked(result: array<Spectrum>, w: array<bool>)
      requires w.Length == result.Length
      modifies result
      ensures forall i :: 0 <= i < result.Length ==>
        result[i] == if w[i] then Conj(old(result[i])) else old(result[i])
    {
      ghost var values := result[..];
      for i := 0 to result.Length
        invariant forall j :: 0 <= j < i ==> result[j] == if w[j] then Conj(values[j]) else values[j]
        invariant forall j :: i <= j < result.Length ==> result[j] == values[j]
      {
        if w[i] {
          result[i] := Conj(result[i]);
        }
      }
    }
  }
}
