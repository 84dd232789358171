/** Three-component vectors: one row of the NumPy position array of shape (N, 3). */
module Vector3 {
  datatype Vec3 = Vec3(x: real, y: real, z: real)

  function Add(a: Vec3, b: Vec3): Vec3 { Vec3(a.x + b.x, a.y + b.y, a.z + b.z) }

  function Sub(a: Vec3, b: Vec3): Vec3 { Vec3(a.x - b.x, a.y - b.y, a.z - b.z) }

  function Neg(a: Vec3): Vec3 { Vec3(-a.x, -a.y, -a.z) }

  /** `sum(v ** 2)`: the squared Euclidean length. */
  function NormSq(a: Vec3): (r: real)
    ensures r >= 0.0
  {
    SquareFacts(a.x); SquareFacts(a.y); SquareFacts(a.z);
    a.x * a.x + a.y * a.y + a.z * a.z
  }

  lemma SquareFacts(c: real)
    ensures c * c >= 0.0
    ensures c != 0.0 ==> c * c > 0.0
  {
    if c > 0.0 {
      PositiveSquare(c);
    } else if c < 0.0 {
      PositiveSquare(-c);
      assert c * c == (-c) * (-c);
    }
  }

  lemma PositiveSquare(c: real)
    requires c > 0.0
    ensures c * c > 0.0
  {
  }

  /** Every component lies in [0, box). */
  predicate InBox(v: Vec3, box: real)
  {
    0.0 <= v.x < box && 0.0 <= v.y < box && 0.0 <= v.z < box
  }

  lemma SubSwap(a: Vec3, b: Vec3)
    ensures Sub(b, a) == Neg(Sub(a, b))
  {
  }

  lemma NormSqNeg(a: Vec3)
    ensures NormSq(Neg(a)) == NormSq(a)
  {
  }
}
