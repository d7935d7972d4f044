/**
 * Vector and 4x4 matrix algebra of the terrain viewer, over the reals.
 *
 * A `Mat4` is stored the way the viewer stores it: `m[i][j]`, uploaded to the
 * shader without transposition, so the shader sees `m[i]` as column `i`.  A
 * point `p` is therefore transformed as the row vector `(p, 1)` times `m`
 * (see `Apply`).  Square roots and trigonometry are not modelled: `Normalize`
 * receives the length of its argument, and `Perspective` receives
 * `tan(fov / 2)`.
 */
module Math3D {

  datatype Vec3 = Vec3(x: real, y: real, z: real)

  /** A homogeneous point, the result of transforming `(p, 1)` by a matrix. */
  datatype Vec4 = Vec4(x: real, y: real, z: real, w: real)

  /** The default-constructed vector. */
  const Zero := Vec3(0.0, 0.0, 0.0)

  function Add(a: Vec3, b: Vec3): Vec3 {
    Vec3(a.x + b.x, a.y + b.y, a.z + b.z)
  }

  function Sub(a: Vec3, b: Vec3): Vec3 {
    Vec3(a.x - b.x, a.y - b.y, a.z - b.z)
  }

  /** `v * s`: multiplication by a scalar. */
  function Scale(v: Vec3, s: real): Vec3 {
    Vec3(v.x * s, v.y * s, v.z * s)
  }

  function Dot(a: Vec3, b: Vec3): real {
    a.x * b.x + a.y * b.y + a.z * b.z
  }

  /** `a.cross(b)`: the right-handed cross product. */
  function Cross(a: Vec3, b: Vec3): Vec3 {
    Vec3(a.y * b.z - a.z * b.y, a.z * b.x - a.x * b.z, a.x * b.y - a.y * b.x)
  }

  /**
   * `v.normalize()`, where `len` is the square root of `Dot(v, v)`: a vector
   * of positive length is divided by it, anything else is returned as is.
   */
  function Normalize(v: Vec3, len: real): (r: Vec3)
    requires len >= 0.0 && len * len == Dot(v, v)
    ensures v == Zero ==> r == v
    ensures r == Zero <==> v == Zero
    ensures len > 0.0 ==> Dot(r, r) == 1.0 && Scale(r, len) == v
    ensures len == 0.0 ==> r == v
  {
    if len > 0.0 then
      UnitAfterDivision(v, len);
      Vec3(v.x / len, v.y / len, v.z / len)
    else
      v
  }

  /**
   * `normalize` where no length is at hand: the terrain builder and the
   * camera receive it as a parameter, and nothing is assumed about it.
   */
  type Normalizer = Vec3 -> Vec3

  lemma UnitAfterDivision(v: Vec3, len: real)
    requires len > 0.0 && len * len == Dot(v, v)
    ensures Dot(Vec3(v.x / len, v.y / len, v.z / len), Vec3(v.x / len, v.y / len, v.z / len)) == 1.0
    ensures Vec3(v.x / len, v.y / len, v.z / len) == Zero <==> v == Zero
    ensures Scale(Vec3(v.x / len, v.y / len, v.z / len), len) == v
  {
    var r := Vec3(v.x / len, v.y / len, v.z / len);
    assert r.x * len == v.x && r.y * len == v.y && r.z * len == v.z;
    calc {
      Dot(r, r) * (len * len);
      (r.x * len) * (r.x * len) + (r.y * len) * (r.y * len) + (r.z * len) * (r.z * len);
      Dot(v, v);
      len * len;
    }
  }

  lemma AddThenSub(a: Vec3, b: Vec3)
    ensures Sub(Add(a, b), b) == a
    ensures Add(Sub(a, b), b) == a
  {
  }

  lemma DotSymmetric(a: Vec3, b: Vec3)
    ensures Dot(a, b) == Dot(b, a)
  {
  }

  lemma CrossAntiCommutative(a: Vec3, b: Vec3)
    ensures Cross(a, b) == Scale(Cross(b, a), -1.0)
  {
  }

  /** The cross product is orthogonal to both of its operands. */
  lemma CrossOrthogonal(a: Vec3, b: Vec3)
    ensures Dot(a, Cross(a, b)) == 0.0
    ensures Dot(b, Cross(a, b)) == 0.0
  {
  }

  // ---------------------------------------------------------------- Mat4

  predicate IsMat4(m: seq<seq<real>>) {
    |m| == 4 && forall i :: 0 <= i < 4 ==> |m[i]| == 4
  }

  type Mat4 = m: seq<seq<real>> | IsMat4(m)
    witness [[0.0, 0.0, 0.0, 0.0], [0.0, 0.0, 0.0, 0.0], [0.0, 0.0, 0.0, 0.0], [0.0, 0.0, 0.0, 0.0]]

  predicate InRange(i: int) {
    0 <= i < 4
  }

  /** The Kronecker delta: the entries of the identity. */
  function Delta(i: int, j: int): real {
    if i == j then 1.0 else 0.0
  }

  /** The default-constructed matrix. */
  function Identity(): (m: Mat4)
    ensures forall i, j :: InRange(i) && InRange(j) ==> m[i][j] == Delta(i, j)
  {
    [[1.0, 0.0, 0.0, 0.0], [0.0, 1.0, 0.0, 0.0], [0.0, 0.0, 1.0, 0.0], [0.0, 0.0, 0.0, 1.0]]
  }

  /** `a[i][0] * b[0][j] + ... + a[i][k-1] * b[k-1][j]`, accumulated from 0. */
  function PartialProduct(a: Mat4, b: Mat4, i: int, j: int, k: int): real
    requires InRange(i) && InRange(j) && 0 <= k <= 4
  {
    if k == 0 then 0.0 else PartialProduct(a, b, i, j, k - 1) + a[i][k - 1] * b[k - 1][j]
  }

  function Entry(a: Mat4, b: Mat4, i: int, j: int): real
    requires InRange(i) && InRange(j)
  {
    PartialProduct(a, b, i, j, 4)
  }

  function Row(a: Mat4, b: Mat4, i: int): seq<real>
    requires InRange(i)
  {
    [Entry(a, b, i, 0), Entry(a, b, i, 1), Entry(a, b, i, 2), Entry(a, b, i, 3)]
  }

  /** `a * b`. */
  function Mul(a: Mat4, b: Mat4): Mat4 {
    [Row(a, b, 0), Row(a, b, 1), Row(a, b, 2), Row(a, b, 3)]
  }

  lemma EntryOfMul(a: Mat4, b: Mat4, i: int, j: int)
    requires InRange(i) && InRange(j)
    ensures Mul(a, b)[i][j] == a[i][0] * b[0][j] + a[i][1] * b[1][j] + a[i][2] * b[2][j] + a[i][3] * b[3][j]
  {
    assert PartialProduct(a, b, i, j, 1) == a[i][0] * b[0][j];
    assert PartialProduct(a, b, i, j, 2) == PartialProduct(a, b, i, j, 1) + a[i][1] * b[1][j];
    assert PartialProduct(a, b, i, j, 3) == PartialProduct(a, b, i, j, 2) + a[i][2] * b[2][j];
    assert PartialProduct(a, b, i, j, 4) == PartialProduct(a, b, i, j, 3) + a[i][3] * b[3][j];
    assert Mul(a, b)[i] == Row(a, b, i);
  }

  /** `Mat4::operator*` as written: a triple loop accumulating into each entry. */
  method MulLoop(a: Mat4, b: Mat4) returns (res: Mat4)
    ensures res == Mul(a, b)
  {
    var rows: seq<seq<real>> := [];
    var i := 0;
    while i < 4
      invariant 0 <= i <= 4
      invariant |rows| == i
      invariant forall r :: 0 <= r < i ==> rows[r] == Row(a, b, r)
    {
      var row: seq<real> := [];
      var j := 0;
      while j < 4
        invariant 0 <= j <= 4
        invariant |row| == j
        invariant forall c :: 0 <= c < j ==> row[c] == Entry(a, b, i, c)
      {
        var sum := 0.0;
        var k := 0;
        while k < 4
          invariant 0 <= k <= 4
          invariant sum == PartialProduct(a, b, i, j, k)
        {
          sum := sum + a[i][k] * b[k][j];
          k := k + 1;
        }
        row := row + [sum];
        j := j + 1;
      }
      rows := rows + [row];
      i := i + 1;
    }
    res := rows;
  }

  lemma IdentityLeft(m: Mat4)
    ensures Mul(Identity(), m) == m
  {
    forall i, j | InRange(i) && InRange(j)
      ensures Mul(Identity(), m)[i][j] == m[i][j]
    {
      EntryOfMul(Identity(), m, i, j);
    }
    MatExt(Mul(Identity(), m), m);
  }

  lemma IdentityRight(m: Mat4)
    ensures Mul(m, Identity()) == m
  {
    forall i, j | InRange(i) && InRange(j)
      ensures Mul(m, Identity())[i][j] == m[i][j]
    {
      EntryOfMul(m, Identity(), i, j);
    }
    MatExt(Mul(m, Identity()), m);
  }

  /** Two matrices with the same entries are equal. */
  lemma MatExt(a: Mat4, b: Mat4)
    requires forall i, j :: InRange(i) && InRange(j) ==> a[i][j] == b[i][j]
    ensures a == b
  {
    forall i | InRange(i)
      ensures a[i] == b[i]
    {
      assert forall j :: InRange(j) ==> a[i][j] == b[i][j];
    }
  }

  // ------------------------------------------------ transforms of points

  /** The row vector `(p, 1)` times `m`: what the shader computes for a point. */
  function Apply(m: Mat4, p: Vec3): Vec4 {
    Vec4(p.x * m[0][0] + p.y * m[1][0] + p.z * m[2][0] + m[3][0],
         p.x * m[0][1] + p.y * m[1][1] + p.z * m[2][1] + m[3][1],
         p.x * m[0][2] + p.y * m[1][2] + p.z * m[2][2] + m[3][2],
         p.x * m[0][3] + p.y * m[1][3] + p.z * m[2][3] + m[3][3])
  }

  /** `Mat4::translate(v)`: the identity with `v` written into row 3. */
  function Translate(v: Vec3): (m: Mat4)
    ensures forall i, j :: InRange(i) && InRange(j) && !(i == 3 && j < 3) ==> m[i][j] == Delta(i, j)
    ensures m[3][0] == v.x && m[3][1] == v.y && m[3][2] == v.z
  {
    Identity()[3 := [v.x, v.y, v.z, 1.0]]
  }

  /** `Mat4::scale(v)`: the identity with `v` on the first three diagonal entries. */
  function ScaleMatrix(v: Vec3): (m: Mat4)
    ensures forall i, j :: InRange(i) && InRange(j) && !(i == j && i < 3) ==> m[i][j] == Delta(i, j)
    ensures m[0][0] == v.x && m[1][1] == v.y && m[2][2] == v.z
  {
    [[v.x, 0.0, 0.0, 0.0], [0.0, v.y, 0.0, 0.0], [0.0, 0.0, v.z, 0.0], [0.0, 0.0, 0.0, 1.0]]
  }

  /** Translating moves every point by `v` and keeps it a point (w = 1). */
  lemma TranslateMovesPoints(v: Vec3, p: Vec3)
    ensures Apply(Translate(v), p) == Vec4(p.x + v.x, p.y + v.y, p.z + v.z, 1.0)
  {
  }

  /** Scaling multiplies every coordinate of a point by the matching factor. */
  lemma ScaleScalesPoints(v: Vec3, p: Vec3)
    ensures Apply(ScaleMatrix(v), p) == Vec4(p.x * v.x, p.y * v.y, p.z * v.z, 1.0)
  {
  }

  /** Two translations compose into the translation by the sum. */
  lemma TranslateCompose(a: Vec3, b: Vec3)
    ensures Mul(Translate(a), Translate(b)) == Translate(Add(a, b))
  {
    var l, r := Mul(Translate(a), Translate(b)), Translate(Add(a, b));
    forall i, j | InRange(i) && InRange(j)
      ensures l[i][j] == r[i][j]
    {
      EntryOfMul(Translate(a), Translate(b), i, j);
    }
    MatExt(l, r);
  }

  /** `Mat4::ortho`; the divisions need a non-degenerate box. */
  function Ortho(left: real, right: real, bottom: real, top: real, near: real, far: real): (m: Mat4)
    requires right != left && top != bottom && far != near
    ensures m[0][0] == 2.0 / (right - left) && m[1][1] == 2.0 / (top - bottom) && m[2][2] == -2.0 / (far - near)
    ensures m[3][0] == -(right + left) / (right - left)
    ensures m[3][1] == -(top + bottom) / (top - bottom)
    ensures m[3][2] == -(far + near) / (far - near)
    ensures m[3][3] == 1.0
    ensures forall i, j :: InRange(i) && InRange(j) && i != j && i < 3 ==> m[i][j] == 0.0
  {
    [[2.0 / (right - left), 0.0, 0.0, 0.0],
     [0.0, 2.0 / (top - bottom), 0.0, 0.0],
     [0.0, 0.0, -2.0 / (far - near), 0.0],
     [-(right + left) / (right - left), -(top + bottom) / (top - bottom), -(far + near) / (far - near), 1.0]]
  }

  /**
   * The orthographic box maps onto the cube [-1, 1]^3: its near-bottom-left
   * corner (viewed down -z) goes to (-1, -1, -1) and its far-top-right corner
   * to (1, 1, 1).
   */
  lemma OrthoMapsBoxToCube(left: real, right: real, bottom: real, top: real, near: real, far: real)
    requires right != left && top != bottom && far != near
    ensures Apply(Ortho(left, right, bottom, top, near, far), Vec3(left, bottom, -near)) == Vec4(-1.0, -1.0, -1.0, 1.0)
    ensures Apply(Ortho(left, right, bottom, top, near, far), Vec3(right, top, -far)) == Vec4(1.0, 1.0, 1.0, 1.0)
  {
    var m := Ortho(left, right, bottom, top, near, far);
    MapsToMinusOne(left, right);
    MapsToMinusOne(bottom, top);
    MapsToMinusOne(near, far);
    assert Apply(m, Vec3(left, bottom, -near)).z == near * (2.0 / (far - near)) - (far + near) / (far - near);
    MapsToOne(left, right);
    MapsToOne(bottom, top);
    MapsToOne(near, far);
    assert Apply(m, Vec3(right, top, -far)).z == far * (2.0 / (far - near)) - (far + near) / (far - near);
  }

  lemma MapsToMinusOne(lo: real, hi: real)
    requires hi != lo
    ensures lo * (2.0 / (hi - lo)) - (hi + lo) / (hi - lo) == -1.0
  {
    var d := hi - lo;
    assert lo * (2.0 / d) == (2.0 * lo) / d;
    assert (2.0 * lo) / d - (hi + lo) / d == (2.0 * lo - (hi + lo)) / d;
    assert 2.0 * lo - (hi + lo) == -d;
  }

  lemma MapsToOne(lo: real, hi: real)
    requires hi != lo
    ensures hi * (2.0 / (hi - lo)) - (hi + lo) / (hi - lo) == 1.0
  {
    var d := hi - lo;
    assert hi * (2.0 / d) == (2.0 * hi) / d;
    assert (2.0 * hi) / d - (hi + lo) / d == (2.0 * hi - (hi + lo)) / d;
    assert 2.0 * hi - (hi + lo) == d;
  }

  /**
   * `Mat4::perspective`, given `tanHalfFov == tan(fov / 2)`; the divisions
   * need a non-zero aspect and tangent and distinct clip planes.
   */
  function Perspective(tanHalfFov: real, aspect: real, near: real, far: real): (m: Mat4)
    requires aspect * tanHalfFov != 0.0 && far != near
    ensures m[0][0] == 1.0 / (aspect * tanHalfFov) && m[1][1] == 1.0 / tanHalfFov
    ensures m[2][2] == -(far + near) / (far - near)
    ensures m[3][2] == -(2.0 * far * near) / (far - near)
    ensures m[2][3] == -1.0 && m[3][3] == 0.0
    ensures forall i, j :: InRange(i) && InRange(j) && i != j && !(i == 3 && j == 2) && !(i == 2 && j == 3) ==> m[i][j] == 0.0
  {
    [[1.0 / (aspect * tanHalfFov), 0.0, 0.0, 0.0],
     [0.0, 1.0 / tanHalfFov, 0.0, 0.0],
     [0.0, 0.0, -(far + near) / (far - near), -1.0],
     [0.0, 0.0, -(2.0 * far * near) / (far - near), 0.0]]
  }

  /**
   * With `q` and `r` the depth entries of the perspective matrix, a point at
   * depth `-near` lands at `-near` and one at depth `-far` at `far`.
   */
  lemma DepthEntries(near: real, far: real, q: real, r: real)
    requires far != near
    requires q * (far - near) == far + near && r * (far - near) == 2.0 * far * near
    ensures near * q - r == -near && far * q - r == far
  {
    var d := far - near;
    assert (near * q - r) * d == near * (q * d) - r * d;
    assert (near * q - r) * d == -near * d;
    assert (far * q - r) * d == far * (q * d) - r * d;
    assert (far * q - r) * d == far * d;
  }

  /**
   * The perspective matrix sends a point at depth `-d` to w = d, and after the
   * division by w the near plane lands at depth -1 and the far plane at +1.
   */
  lemma PerspectiveDepthRange(tanHalfFov: real, aspect: real, near: real, far: real, x: real, y: real)
    requires aspect * tanHalfFov != 0.0 && far != near
    ensures Apply(Perspective(tanHalfFov, aspect, near, far), Vec3(x, y, -near)).w == near
    ensures Apply(Perspective(tanHalfFov, aspect, near, far), Vec3(x, y, -near)).z == -near
    ensures Apply(Perspective(tanHalfFov, aspect, near, far), Vec3(x, y, -far)).w == far
    ensures Apply(Perspective(tanHalfFov, aspect, near, far), Vec3(x, y, -far)).z == far
  {
    var m := Perspective(tanHalfFov, aspect, near, far);
    var q, r := (far + near) / (far - near), (2.0 * far * near) / (far - near);
    assert m[2][2] == -q && m[3][2] == -r;
    DepthEntries(near, far, q, r);
  }
}
