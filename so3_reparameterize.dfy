/*
 * SO3reparameterize.sampleSO3 for one sample: the reparameterisation of a
 * rotation-valued latent.  lie_tools.expmap is a parameter, the training flag
 * is a parameter, and the draw of torch.randn_like is passed in as the noise
 * eps, which evaluation mode ignores.
 */
module SO3Reparameterize {

  datatype Vec3 = Vec3(x: real, y: real, z: real)

  /** A 3 x 3 matrix by rows. */
  datatype Mat3 = Mat3(r0: Vec3, r1: Vec3, r2: Vec3)

  function Col(m: Mat3, j: int): Vec3
    requires 0 <= j < 3
  {
    if j == 0 then Vec3(m.r0.x, m.r1.x, m.r2.x)
    else if j == 1 then Vec3(m.r0.y, m.r1.y, m.r2.y)
    else Vec3(m.r0.z, m.r1.z, m.r2.z)
  }

  function Dot(u: Vec3, v: Vec3): real
  {
    u.x * v.x + u.y * v.y + u.z * v.z
  }

  function RowTimes(u: Vec3, b: Mat3): Vec3
  {
    Vec3(Dot(u, Col(b, 0)), Dot(u, Col(b, 1)), Dot(u, Col(b, 2)))
  }

  /** The matrix product a @ b. */
  function MatMul(a: Mat3, b: Mat3): Mat3
  {
    Mat3(RowTimes(a.r0, b), RowTimes(a.r1, b), RowTimes(a.r2, b))
  }

  /** The identity rotation. */
  const Identity := Mat3(Vec3(1.0, 0.0, 0.0), Vec3(0.0, 1.0, 0.0), Vec3(0.0, 0.0, 1.0))

  const Zero := Vec3(0.0, 0.0, 0.0)

  /** The identity is a right unit of the matrix product. */
  lemma MatMulIdentity(a: Mat3)
    ensures MatMul(a, Identity) == a
  {
  }

  /**
   * sampleSO3 for one sample: in evaluation mode the mean rotation and the
   * standard deviation come back as they are; in training mode the tangent
   * noise w = eps * std is mapped to a rotation that is applied on the right,
   * and w is returned with it.
   */
  function SampleSO3(training: bool, eps: Vec3, zMu: Mat3, zStd: Vec3, expmap: Vec3 -> Mat3): (r: (Mat3, Vec3))
    ensures !training ==> r == (zMu, zStd)
    ensures training ==> r.1 == Vec3(eps.x * zStd.x, eps.y * zStd.y, eps.z * zStd.z)
  {
    if !training then (zMu, zStd)
    else
      var w := Vec3(eps.x * zStd.x, eps.y * zStd.y, eps.z * zStd.z);
      (MatMul(zMu, expmap(w)), w)
  }

  /**
   * With zero noise and an exponential map that sends the zero tangent to the
   * identity, training returns the mean rotation and the zero tangent, where
   * evaluation returns the mean rotation and the standard deviation itself.
   */
  lemma SampleSO3ZeroNoise(zMu: Mat3, zStd: Vec3, expmap: Vec3 -> Mat3)
    requires expmap(Zero) == Identity
    ensures SampleSO3(true, Zero, zMu, zStd, expmap) == (zMu, Zero)
    ensures SampleSO3(false, Zero, zMu, zStd, expmap) == (zMu, zStd)
  {
    MatMulIdentity(zMu);
  }
}
