/*
 * The small pure helpers of HetVAE: appending the latent value to the
 * coordinates of every pixel (cat_z), splitting the encoder output into mean
 * and log-variance (encode), and the reparameterisation step, whose
 * evaluation mode passes the mean through.
 *
 * Tensors are nested sequences: a batch of images, each a sequence of pixel
 * rows.  The encoder network and torch.exp are parameters,
 * and so is the training flag; the draw of torch.randn_like is passed in as
 * the noise eps, which evaluation mode ignores.
 */
module HetVAE {

  /** Why cat_z raises: the coordinate check, the view of z, or the expansion of z. */
  datatype CatZError = CoordsNotXYZ | LatentShape | BatchMismatch

  /** A computation that returns a value or raises. */
  datatype Result<T> = Ok(value: T) | Failure(error: CatZError)

  type Row = seq<real>

  // ----- cat_z -----

  /** Every coordinate row holds exactly x, y, z. */
  predicate CoordsOf3(coords: seq<seq<Row>>)
  {
    forall b, p :: 0 <= b < |coords| && 0 <= p < |coords[b]| ==> |coords[b][p]| == 3
  }

  /** z has one latent value per image, so that z.view(B, 1, 1) succeeds. */
  predicate OneLatentEach(z: seq<Row>)
  {
    forall b :: 0 <= b < |z| ==> |z[b]| == 1
  }

  /** z.expand to the batch of coords: the batches agree or z has a single image to broadcast. */
  predicate Broadcasts(z: seq<Row>, batch: int)
  {
    |z| == batch || |z| == 1
  }

  /** The latent value of image b after the broadcast. */
  function LatentOf(z: seq<Row>, b: int): real
    requires OneLatentEach(z) && z != [] && (|z| == 1 || 0 <= b < |z|)
  {
    if |z| == 1 then z[0][0] else z[b][0]
  }

  /**
   * cat_z on a batch of coordinate rows: fails unless every row has three
   * coordinates, every image one latent value, and the latent batch
   * broadcasts; otherwise every row gets its image's latent value appended.
   */
  function CatZ(coords: seq<seq<Row>>, z: seq<Row>): (r: Result<seq<seq<Row>>>)
    ensures r.Ok? <==> CoordsOf3(coords) && OneLatentEach(z) && Broadcasts(z, |coords|)
    ensures r.Ok? ==> |r.value| == |coords|
    ensures r.Ok? ==> forall b :: 0 <= b < |coords| ==> |r.value[b]| == |coords[b]|
    ensures r.Ok? ==> forall b, p :: 0 <= b < |coords| && 0 <= p < |coords[b]| ==>
      r.value[b][p] == coords[b][p] + [LatentOf(z, b)]
  {
    if !CoordsOf3(coords) then
      Failure(CoordsNotXYZ)
    else if !OneLatentEach(z) then
      Failure(LatentShape)
    else if !Broadcasts(z, |coords|) then
      Failure(BatchMismatch)
    else
      Ok(seq(|coords|, b requires 0 <= b < |coords| =>
        seq(|coords[b]|, p requires 0 <= p < |coords[b]| => coords[b][p] + [LatentOf(z, b)])))
  }

  /**
   * Every output row has four components: its own coordinates, which
   * dropping the last column gives back, and a latent value that every pixel
   * of the same image shares.
   */
  lemma CatZRows(coords: seq<seq<Row>>, z: seq<Row>)
    requires CatZ(coords, z).Ok?
    ensures var out := CatZ(coords, z).value;
      forall b, p :: 0 <= b < |out| && 0 <= p < |out[b]| ==>
        |out[b][p]| == 4 && out[b][p][..3] == coords[b][p]
    ensures var out := CatZ(coords, z).value;
      forall b, p, q :: 0 <= b < |out| && 0 <= p < |out[b]| && 0 <= q < |out[b]| ==>
        out[b][p][3] == out[b][q][3] == LatentOf(z, b)
  {
    var out := CatZ(coords, z).value;
    forall b, p | 0 <= b < |out| && 0 <= p < |out[b]|
      ensures |out[b][p]| == 4 && out[b][p][..3] == coords[b][p] && out[b][p][3] == LatentOf(z, b)
    {
      assert out[b][p] == coords[b][p] + [LatentOf(z, b)];
    }
  }

  /** Every image has a latent vector of width k. */
  predicate LatentsOfWidth(z: seq<Row>, k: int)
  {
    forall b :: 0 <= b < |z| ==> |z[b]| == k
  }

  /** The latent vector of image b after the broadcast. */
  function LatentRow(z: seq<Row>, b: int): Row
    requires z != [] && (|z| == 1 || 0 <= b < |z|)
  {
    if |z| == 1 then z[0] else z[b]
  }

  /**
   * cat_z as the decoder's input width 3 + z_dim calls for: the whole latent
   * vector of each image appended to every one of its coordinate rows.
   */
  function CatZVector(coords: seq<seq<Row>>, z: seq<Row>, zDim: nat): (r: Result<seq<seq<Row>>>)
    ensures r.Ok? <==> CoordsOf3(coords) && LatentsOfWidth(z, zDim) && Broadcasts(z, |coords|)
    ensures r.Ok? ==> |r.value| == |coords|
    ensures r.Ok? ==> forall b :: 0 <= b < |coords| ==> |r.value[b]| == |coords[b]|
    ensures r.Ok? ==> forall b, p :: 0 <= b < |coords| && 0 <= p < |coords[b]| ==>
      r.value[b][p] == coords[b][p] + LatentRow(z, b) && |r.value[b][p]| == 3 + zDim
  {
    if !CoordsOf3(coords) then
      Failure(CoordsNotXYZ)
    else if !LatentsOfWidth(z, zDim) then
      Failure(LatentShape)
    else if !Broadcasts(z, |coords|) then
      Failure(BatchMismatch)
    else
      Ok(seq(|coords|, b requires 0 <= b < |coords| =>
        seq(|coords[b]|, p requires 0 <= p < |coords[b]| => coords[b][p] + LatentRow(z, b))))
  }

  /** With z_dim = 1 the intended cat_z is the one written. */
  lemma CatZVectorExtendsCatZ(coords: seq<seq<Row>>, z: seq<Row>)
    ensures CatZ(coords, z) == CatZVector(coords, z, 1)
  {
    assert OneLatentEach(z) == LatentsOfWidth(z, 1);
    var r1, r2 := CatZ(coords, z), CatZVector(coords, z, 1);
    if r1.Ok? {
      forall b | 0 <= b < |coords|
        ensures r1.value[b] == r2.value[b]
      {
        var l := LatentRow(z, b);
        assert |l| == 1 && l == [LatentOf(z, b)];
        assert forall p :: 0 <= p < |coords[b]| ==> r1.value[b][p] == r2.value[b][p];
      }
      assert r1.value == r2.value;
    }
  }

  /**
   * One image, one pixel, z_dim = 2: the written cat_z raises, while the
   * decoder it feeds was built for 3 + 2 inputs per row.
   */
  lemma CatZRejectsWideLatent()
    ensures CatZ([[[0.0, 0.0, 0.0]]], [[1.0, 2.0]]).Failure?
    ensures CatZVector([[[0.0, 0.0, 0.0]]], [[1.0, 2.0]], 2) == Ok([[[0.0, 0.0, 0.0, 1.0, 2.0]]])
  {
    assert |[[1.0, 2.0]][0]| == 2;
    var r := CatZVector([[[0.0, 0.0, 0.0]]], [[1.0, 2.0]], 2);
    assert r.Ok?;
    assert r.value[0][0] == [0.0, 0.0, 0.0] + [1.0, 2.0] == [0.0, 0.0, 0.0, 1.0, 2.0];
    assert |r.value| == 1 && |r.value[0]| == 1;
    assert r.value[0] == [[0.0, 0.0, 0.0, 1.0, 2.0]];
    assert r.value == [[[0.0, 0.0, 0.0, 1.0, 2.0]]];
  }

  // ----- encode -----

  /** Where a Python slice stop k cuts a sequence of length n: negative k counts from the end, and both clamp. */
  function SliceStop(n: nat, k: int): (s: nat)
    ensures s <= n
    ensures 0 <= k <= n ==> s == k
    ensures k < 0 && n + k >= 0 ==> s == n + k
    ensures k > n ==> s == n
    ensures n + k < 0 ==> s == 0
  {
    if k >= 0 then (if k <= n then k else n)
    else if n + k >= 0 then n + k else 0
  }

  /** encode: z[:, :zDim] and z[:, zDim:] of the encoder's output, row by row. */
  function Encode<Img>(encoder: Img -> seq<Row>, img: Img, zDim: int): (r: (seq<Row>, seq<Row>))
    ensures var z := encoder(img);
      |r.0| == |z| && |r.1| == |z| &&
      forall b :: 0 <= b < |z| ==> |r.0[b]| == SliceStop(|z[b]|, zDim)
  {
    var z := encoder(img);
    (seq(|z|, b requires 0 <= b < |z| => z[b][..SliceStop(|z[b]|, zDim)]),
     seq(|z|, b requires 0 <= b < |z| => z[b][SliceStop(|z[b]|, zDim)..]))
  }

  /**
   * The two halves put back together are the encoder's output; when the
   * encoder produces the 2 * zDim values it was built for, each half has zDim.
   */
  lemma EncodeSplits<Img>(encoder: Img -> seq<Row>, img: Img, zDim: int)
    ensures var z, r := encoder(img), Encode(encoder, img, zDim);
      forall b :: 0 <= b < |z| ==> r.0[b] + r.1[b] == z[b]
    ensures var z, r := encoder(img), Encode(encoder, img, zDim);
      zDim >= 0 ==> forall b :: 0 <= b < |z| && |z[b]| == 2 * zDim ==>
        |r.0[b]| == zDim && |r.1[b]| == zDim
  {
    var z, r := encoder(img), Encode(encoder, img, zDim);
    forall b | 0 <= b < |z|
      ensures r.0[b] + r.1[b] == z[b]
    {
      var s := SliceStop(|z[b]|, zDim);
      assert r.0[b] == z[b][..s] && r.1[b] == z[b][s..];
      assert z[b][..s] + z[b][s..] == z[b];
    }
  }

  // ----- reparameterize -----

  /**
   * reparameterize: the mean in evaluation mode, and eps * exp(logvar / 2) + mu
   * with the drawn noise eps in training mode.
   */
  function Reparameterize(training: bool, eps: Row, mu: Row, logvar: Row, exp: real -> real): (r: Row)
    requires training ==> |eps| == |logvar| == |mu|
    ensures !training ==> r == mu
    ensures |r| == |mu|
  {
    if !training then mu
    else seq(|mu|, i requires 0 <= i < |mu| => eps[i] * exp(0.5 * logvar[i]) + mu[i])
  }

  /**
   * Training with zero noise gives the evaluation result, and otherwise each
   * value moves from the mean by eps times the standard deviation: since the
   * exponential is positive, a value lies above, on or below its mean exactly
   * as its noise is positive, zero or negative.
   */
  lemma ReparameterizeAroundMean(eps: Row, mu: Row, logvar: Row, exp: real -> real)
    requires |eps| == |logvar| == |mu|
    requires forall x :: exp(x) > 0.0
    ensures var r := Reparameterize(true, eps, mu, logvar, exp);
      forall i :: 0 <= i < |mu| ==> r[i] - mu[i] == eps[i] * exp(0.5 * logvar[i])
    ensures var r := Reparameterize(true, eps, mu, logvar, exp);
      forall i :: 0 <= i < |mu| ==> (r[i] > mu[i] <==> eps[i] > 0.0) && (r[i] == mu[i] <==> eps[i] == 0.0)
    ensures (forall i :: 0 <= i < |eps| ==> eps[i] == 0.0) ==>
      Reparameterize(true, eps, mu, logvar, exp) == Reparameterize(false, eps, mu, logvar, exp)
  {
    var r := Reparameterize(true, eps, mu, logvar, exp);
    forall i | 0 <= i < |mu|
      ensures (r[i] > mu[i] <==> eps[i] > 0.0) && (r[i] == mu[i] <==> eps[i] == 0.0)
    {
      var sd := exp(0.5 * logvar[i]);
      assert sd > 0.0;
      assert r[i] - mu[i] == eps[i] * sd;
      if eps[i] > 0.0 {
        assert eps[i] * sd > 0.0;
      } else if eps[i] < 0.0 {
        assert eps[i] * sd < 0.0;
      }
    }
    if forall i :: 0 <= i < |eps| ==> eps[i] == 0.0 {
      forall i | 0 <= i < |mu|
        ensures r[i] == mu[i]
      {
        assert r[i] == eps[i] * exp(0.5 * logvar[i]) + mu[i];
      }
    }
  }
}
