/**
 * The heightfield mesh builder (`Terrain::generateTerrain`).
 *
 * A `width` x `height` grid of vertices is scanned row by row (`z` outer,
 * `x` inner); every cell contributes two triangles; every triangle's face
 * normal is added onto its three corners; finally each vertex is packed as
 * six numbers, position then normalized accumulated normal.
 *
 * The height formula (sines and cosines of the grid coordinates) and vector
 * normalization (a square root) are not modelled: both are parameters, so
 * every property below holds for any height function and any normalizer.
 */
module Terrain {
  import opened Math3D
  import opened IntArith

  /** The elevation of the grid point in column `x` of row `z`. */
  type HeightField = (int, int) -> real

  /** A triangle of the index buffer: three vertex numbers in drawing order. */
  datatype Tri = Tri(a: int, b: int, c: int)

  /** The two buffers `generateTerrain` fills. */
  datatype Mesh = Mesh(vertices: seq<real>, indices: seq<int>)

  /** A loop bound: a loop `for (i = 0; i < n; ++i)` runs `Count(n)` times. */
  function Count(n: int): nat {
    if n > 0 then n else 0
  }

  /** The vertex number of column `x` of row `z`: rows of `w` vertices are stored one after another. */
  function Index(w: int, x: int, z: int): int {
    Times(z, w) + x
  }

  /** The number of the cell with lower corner `(x, z)`, with `w - 1` cells in each row. */
  function Cell(w: int, x: int, z: int): int {
    Times(z, w - 1) + x
  }

  /** The number of grid vertices: `width * height`, or none if either is not positive. */
  function Size(w: int, h: int): int {
    Times(Count(h), Count(w))
  }

  lemma SizeIsProduct(w: int, h: int)
    ensures Size(w, h) == Count(h) * Count(w)
  {
    TimesIsMul(Count(h), Count(w));
  }

  /** Row-major numbering sends the `w` x `n` grid into `[0, n * w)`. */
  lemma IndexBound(w: int, x: int, z: int, n: int)
    requires 0 <= x < w && 0 <= z < n
    ensures 0 <= Index(w, x, z) < Times(n, w)
  {
    TimesMonotone(0, z, w);
    TimesMonotone(z + 1, n, w);
  }

  // ---------------------------------------------------------------------
  // The vertex grid
  // ---------------------------------------------------------------------

  /** One pass of the inner loop over `x`: row `z` of vertex positions. */
  function GridRow(w: int, height: HeightField, z: int): seq<Vec3> {
    seq(Count(w), x => Vec3(x as real, height(x, z), z as real))
  }

  /** The positions after `n` passes of the outer loop over `z`. */
  function GridRows(w: int, height: HeightField, n: int): seq<Vec3>
    decreases n
  {
    if n <= 0 then [] else GridRows(w, height, n - 1) + GridRow(w, height, n - 1)
  }

  /** `tempVertices`: every grid point, in scan order. */
  function Grid(w: int, h: int, height: HeightField): seq<Vec3> {
    GridRows(w, height, h)
  }

  lemma {:induction false} GridRowsLength(w: int, height: HeightField, n: int)
    ensures |GridRows(w, height, n)| == Times(Count(n), Count(w))
    decreases n
  {
    if n > 0 {
      GridRowsLength(w, height, n - 1);
    }
  }

  lemma {:induction false} GridRowsAt(w: int, height: HeightField, n: int, x: int, z: int)
    requires 0 <= x < w && 0 <= z < n
    ensures 0 <= Index(w, x, z) < |GridRows(w, height, n)|
    ensures GridRows(w, height, n)[Index(w, x, z)] == Vec3(x as real, height(x, z), z as real)
    decreases n
  {
    GridRowsLength(w, height, n - 1);
    if z < n - 1 {
      GridRowsAt(w, height, n - 1, x, z);
    } else {
      assert Index(w, x, z) == |GridRows(w, height, n - 1)| + x;
    }
  }

  /**
   * The grid has `width * height` vertices (none when either is not
   * positive), and vertex `Index(w, x, z)` is the point of column `x` in
   * row `z`, at elevation `height(x, z)`.
   */
  lemma GridLayout(w: int, h: int, height: HeightField)
    ensures |Grid(w, h, height)| == Size(w, h) == Count(h) * Count(w)
    ensures forall x, z :: 0 <= x < w && 0 <= z < h ==>
      && 0 <= Index(w, x, z) < |Grid(w, h, height)|
      && Grid(w, h, height)[Index(w, x, z)] == Vec3(x as real, height(x, z), z as real)
  {
    GridRowsLength(w, height, h);
    SizeIsProduct(w, h);
    forall x, z | 0 <= x < w && 0 <= z < h
      ensures 0 <= Index(w, x, z) < |Grid(w, h, height)|
      ensures Grid(w, h, height)[Index(w, x, z)] == Vec3(x as real, height(x, z), z as real)
    {
      GridRowsAt(w, height, h, x, z);
    }
  }

  // ---------------------------------------------------------------------
  // The index buffer
  // ---------------------------------------------------------------------

  /**
   * The two triangles of the cell whose lower corner is `(x, z)`:
   * `(i0, i2, i1)` then `(i1, i2, i3)`, with `i0, i1` on row `z` and `i2, i3`
   * on row `z + 1`.
   */
  function CellTris(w: int, x: int, z: int): seq<Tri> {
    var i0, i1 := Index(w, x, z), Index(w, x + 1, z);
    var i2, i3 := Index(w, x, z + 1), Index(w, x + 1, z + 1);
    [Tri(i0, i2, i1), Tri(i1, i2, i3)]
  }

  /** The triangles of the first `m` cells of row `z`. */
  function CellRow(w: int, z: int, m: int): seq<Tri>
    decreases m
  {
    if m <= 0 then [] else CellRow(w, z, m - 1) + CellTris(w, m - 1, z)
  }

  /** The triangles of the first `n` rows of cells, `w - 1` cells per row. */
  function CellRows(w: int, n: int): seq<Tri>
    decreases n
  {
    if n <= 0 then [] else CellRows(w, n - 1) + CellRow(w, n - 1, w - 1)
  }

  /** Every triangle, in the order the cell loops emit them. */
  function Triangles(w: int, h: int): seq<Tri> {
    CellRows(w, h - 1)
  }

  lemma {:induction false} CellRowLength(w: int, z: int, m: int)
    ensures |CellRow(w, z, m)| == 2 * Count(m)
    decreases m
  {
    if m > 0 {
      CellRowLength(w, z, m - 1);
    }
  }

  lemma {:induction false} CellRowAt(w: int, z: int, m: int, x: int)
    requires 0 <= x < m
    ensures |CellRow(w, z, m)| == 2 * m
    ensures CellRow(w, z, m)[2 * x] == CellTris(w, x, z)[0]
    ensures CellRow(w, z, m)[2 * x + 1] == CellTris(w, x, z)[1]
    decreases m
  {
    CellRowLength(w, z, m);
    CellRowLength(w, z, m - 1);
    if x < m - 1 {
      CellRowAt(w, z, m - 1, x);
    }
  }

  lemma {:induction false} CellRowsLength(w: int, n: int)
    ensures |CellRows(w, n)| == 2 * Times(Count(n), Count(w - 1))
    decreases n
  {
    if n > 0 {
      CellRowsLength(w, n - 1);
      CellRowLength(w, n - 1, w - 1);
    }
  }

  lemma {:induction false} CellRowsAt(w: int, n: int, x: int, z: int)
    requires 0 <= x < w - 1 && 0 <= z < n
    ensures 0 <= Cell(w, x, z) && 2 * Cell(w, x, z) + 1 < |CellRows(w, n)|
    ensures CellRows(w, n)[2 * Cell(w, x, z)] == CellTris(w, x, z)[0]
    ensures CellRows(w, n)[2 * Cell(w, x, z) + 1] == CellTris(w, x, z)[1]
    decreases n
  {
    CellRowsLength(w, n - 1);
    CellRowAt(w, n - 1, w - 1, x);
    IndexBound(w - 1, x, z, n);
    CellRowsLength(w, n);
    if z < n - 1 {
      CellRowsAt(w, n - 1, x, z);
    } else {
      assert Cell(w, x, z) == Times(n - 1, w - 1) + x;
    }
  }

  /** Triangle `t` is drawn between three distinct vertices among the first `count`. */
  predicate ValidTri(t: Tri, count: int) {
    && 0 <= t.a < count && 0 <= t.b < count && 0 <= t.c < count
    && t.a != t.b && t.b != t.c && t.a != t.c
  }

  predicate AllValid(tris: seq<Tri>, count: int) {
    forall k :: 0 <= k < |tris| ==> ValidTri(tris[k], count)
  }

  lemma CellValid(w: int, h: int, x: int, z: int)
    requires 0 <= x < w - 1 && 0 <= z < h - 1
    ensures AllValid(CellTris(w, x, z), Size(w, h))
  {
    IndexBound(w, x + 1, z + 1, h);
    IndexBound(w, x, z, h);
    assert Index(w, x, z + 1) == Index(w, x, z) + w;
  }

  lemma {:induction false} CellRowValid(w: int, h: int, z: int, m: int)
    requires 0 <= z < h - 1 && 0 <= m <= w - 1
    ensures AllValid(CellRow(w, z, m), Size(w, h))
    decreases m
  {
    if m > 0 {
      CellRowValid(w, h, z, m - 1);
      CellValid(w, h, m - 1, z);
    }
  }

  lemma {:induction false} CellRowsValid(w: int, h: int, n: int)
    requires n <= h - 1
    ensures AllValid(CellRows(w, n), Size(w, h))
    decreases n
  {
    if n > 0 {
      CellRowsValid(w, h, n - 1);
      if w > 1 {
        CellRowValid(w, h, n - 1, w - 1);
      }
    }
  }

  /**
   * There are `2 * (w - 1) * (h - 1)` triangles, none unless both dimensions
   * exceed 1, each between three distinct vertices of the grid.
   */
  lemma TrianglesShape(w: int, h: int)
    ensures |Triangles(w, h)| == if 1 < w && 1 < h then 2 * ((h - 1) * (w - 1)) else 0
    ensures AllValid(Triangles(w, h), Size(w, h))
  {
    CellRowsLength(w, h - 1);
    TimesIsMul(Count(h - 1), Count(w - 1));
    CellRowsValid(w, h, h - 1);
  }

  /** The index buffer: the corners of each triangle, pushed in order. */
  function Flatten(tris: seq<Tri>): seq<int>
    decreases |tris|
  {
    if |tris| == 0 then []
    else
      var t := tris[|tris| - 1];
      Flatten(tris[..|tris| - 1]) + [t.a, t.b, t.c]
  }

  lemma {:induction false} FlattenLength(tris: seq<Tri>)
    ensures |Flatten(tris)| == 3 * |tris|
    decreases |tris|
  {
    if |tris| > 0 {
      FlattenLength(tris[..|tris| - 1]);
    }
  }

  /** Triangle `k` occupies entries `3k`, `3k + 1`, `3k + 2` of the index buffer. */
  lemma {:induction false} FlattenAt(tris: seq<Tri>, k: int)
    requires 0 <= k < |tris|
    ensures |Flatten(tris)| == 3 * |tris|
    ensures Flatten(tris)[3 * k..3 * k + 3] == [tris[k].a, tris[k].b, tris[k].c]
    decreases |tris|
  {
    var init := tris[..|tris| - 1];
    FlattenLength(tris);
    FlattenLength(init);
    if k < |tris| - 1 {
      FlattenAt(init, k);
      assert tris[k] == init[k];
      assert Flatten(tris)[3 * k..3 * k + 3] == Flatten(init)[3 * k..3 * k + 3];
    }
  }

  /** Triangles `2j` and `2j + 1` occupy the six entries from `6j`. */
  lemma FlattenCell(tris: seq<Tri>, j: int)
    requires 0 <= j && 2 * j + 1 < |tris|
    ensures 6 * j + 6 <= |Flatten(tris)|
    ensures var t0, t1 := tris[2 * j], tris[2 * j + 1];
      Flatten(tris)[6 * j..6 * j + 6] == [t0.a, t0.b, t0.c, t1.a, t1.b, t1.c]
  {
    var idx := Flatten(tris);
    FlattenAt(tris, 2 * j);
    FlattenAt(tris, 2 * j + 1);
    assert idx[6 * j..6 * j + 6] == idx[6 * j..6 * j + 3] + idx[6 * j + 3..6 * j + 6];
  }

  /** Every index of valid triangles numbers one of the first `count` vertices. */
  lemma {:induction false} FlattenInRange(tris: seq<Tri>, count: int)
    requires AllValid(tris, count)
    ensures forall k :: 0 <= k < |Flatten(tris)| ==> 0 <= Flatten(tris)[k] < count
    decreases |tris|
  {
    if |tris| > 0 {
      FlattenInRange(tris[..|tris| - 1], count);
      assert ValidTri(tris[|tris| - 1], count);
    }
  }

  // ---------------------------------------------------------------------
  // Normal accumulation
  // ---------------------------------------------------------------------

  /** The cross product of the edges from the first corner of `t` to its second and to its third. */
  function EdgeCross(pos: seq<Vec3>, t: Tri): Vec3
    requires ValidTri(t, |pos|)
  {
    Cross(Sub(pos[t.b], pos[t.a]), Sub(pos[t.c], pos[t.a]))
  }

  /** The face normal of `t`: its edge cross product, normalized. */
  function FaceNormal(pos: seq<Vec3>, t: Tri, normalize: Normalizer): Vec3
    requires ValidTri(t, |pos|)
  {
    normalize(EdgeCross(pos, t))
  }

  /**
   * Whatever the elevations, both triangles of every cell face up: their
   * edge cross products have y component exactly 1 (the cell's unit
   * footprint), so neither is degenerate and the winding `i0, i2, i1` /
   * `i1, i2, i3` is counter-clockwise seen from above.
   */
  lemma CellFacesPointUp(w: int, h: int, height: HeightField, x: int, z: int)
    requires 0 <= x < w - 1 && 0 <= z < h - 1
    ensures var pos, tris := Grid(w, h, height), CellTris(w, x, z);
      && AllValid(tris, |pos|)
      && EdgeCross(pos, tris[0]).y == 1.0
      && EdgeCross(pos, tris[1]).y == 1.0
  {
    GridRowsLength(w, height, h);
    CellValid(w, h, x, z);
    GridRowsAt(w, height, h, x, z);
    GridRowsAt(w, height, h, x + 1, z);
    GridRowsAt(w, height, h, x, z + 1);
    GridRowsAt(w, height, h, x + 1, z + 1);
  }

  predicate HasCorner(t: Tri, v: int) {
    t.a == v || t.b == v || t.c == v
  }

  /**
   * The three `tempNormals[i] = tempNormals[i] + normal` updates for one
   * triangle: its face normal is added to each of its corners once, and no
   * other vertex changes.
   */
  function AddFace(acc: seq<Vec3>, pos: seq<Vec3>, t: Tri, normalize: Normalizer): (r: seq<Vec3>)
    requires |acc| == |pos| && ValidTri(t, |pos|)
    ensures |r| == |acc|
    ensures forall v :: 0 <= v < |acc| ==>
      r[v] == if HasCorner(t, v) then Add(acc[v], FaceNormal(pos, t, normalize)) else acc[v]
  {
    var n := FaceNormal(pos, t, normalize);
    var acc1 := acc[t.a := Add(acc[t.a], n)];
    var acc2 := acc1[t.b := Add(acc1[t.b], n)];
    acc2[t.c := Add(acc2[t.c], n)]
  }

  /** `tempNormals` after the triangles `tris`, in order, starting from all zeros. */
  function Accumulate(pos: seq<Vec3>, tris: seq<Tri>, normalize: Normalizer): (r: seq<Vec3>)
    requires AllValid(tris, |pos|)
    ensures |r| == |pos|
    decreases |tris|
  {
    if |tris| == 0 then seq(|pos|, _ => Zero)
    else
      var init := tris[..|tris| - 1];
      AddFace(Accumulate(pos, init, normalize), pos, tris[|tris| - 1], normalize)
  }

  /** The sum of the face normals of those triangles of `tris` that have `v` as a corner. */
  function NormalSum(pos: seq<Vec3>, tris: seq<Tri>, normalize: Normalizer, v: int): Vec3
    requires AllValid(tris, |pos|)
    decreases |tris|
  {
    if |tris| == 0 then Zero
    else
      var t := tris[|tris| - 1];
      var rest := NormalSum(pos, tris[..|tris| - 1], normalize, v);
      if HasCorner(t, v) then Add(rest, FaceNormal(pos, t, normalize)) else rest
  }

  /** The accumulated normal of every vertex is the sum of the face normals around it. */
  lemma {:induction false} AccumulateIsNormalSum(pos: seq<Vec3>, tris: seq<Tri>, normalize: Normalizer)
    requires AllValid(tris, |pos|)
    ensures forall v :: 0 <= v < |pos| ==>
      Accumulate(pos, tris, normalize)[v] == NormalSum(pos, tris, normalize, v)
    decreases |tris|
  {
    if |tris| > 0 {
      AccumulateIsNormalSum(pos, tris[..|tris| - 1], normalize);
    }
  }

  // ---------------------------------------------------------------------
  // Packing
  // ---------------------------------------------------------------------

  /** The six numbers stored for one vertex: position, then normal. */
  function Record(p: Vec3, n: Vec3): seq<real> {
    [p.x, p.y, p.z, n.x, n.y, n.z]
  }

  /** The packing loop: each position followed by its normalized accumulated normal. */
  function Pack(pos: seq<Vec3>, normals: seq<Vec3>, normalize: Normalizer): seq<real>
    requires |normals| == |pos|
    decreases |pos|
  {
    if |pos| == 0 then []
    else
      var last := |pos| - 1;
      Pack(pos[..last], normals[..last], normalize) + Record(pos[last], normalize(normals[last]))
  }

  lemma {:induction false} PackLength(pos: seq<Vec3>, normals: seq<Vec3>, normalize: Normalizer)
    requires |normals| == |pos|
    ensures |Pack(pos, normals, normalize)| == 6 * |pos|
    decreases |pos|
  {
    if |pos| > 0 {
      PackLength(pos[..|pos| - 1], normals[..|pos| - 1], normalize);
    }
  }

  /** Vertex `i` occupies entries `6i` to `6i + 5`: its position, then its normalized normal. */
  lemma {:induction false} PackAt(pos: seq<Vec3>, normals: seq<Vec3>, normalize: Normalizer, i: int)
    requires |normals| == |pos| && 0 <= i < |pos|
    ensures |Pack(pos, normals, normalize)| == 6 * |pos|
    ensures Pack(pos, normals, normalize)[6 * i..6 * i + 6] == Record(pos[i], normalize(normals[i]))
    decreases |pos|
  {
    var last := |pos| - 1;
    var init, initN := pos[..last], normals[..last];
    PackLength(pos, normals, normalize);
    PackLength(init, initN, normalize);
    if i < last {
      PackAt(init, initN, normalize, i);
      assert pos[i] == init[i] && normals[i] == initN[i];
      assert Pack(pos, normals, normalize)[6 * i..6 * i + 6] == Pack(init, initN, normalize)[6 * i..6 * i + 6];
    }
  }

  // ---------------------------------------------------------------------
  // The whole builder
  // ---------------------------------------------------------------------

  /** `Terrain(w, h)`: grid, triangles, accumulated normals, then packing. */
  function GenerateTerrain(w: int, h: int, height: HeightField, normalize: Normalizer): Mesh {
    var pos := Grid(w, h, height);
    var tris := Triangles(w, h);
    GridRowsLength(w, height, h);
    TrianglesShape(w, h);
    Mesh(Pack(pos, Accumulate(pos, tris, normalize), normalize), Flatten(tris))
  }

  /**
   * Six numbers per vertex and `width * height` vertices; six indices per
   * cell and `(width - 1) * (height - 1)` cells. Non-positive dimensions give
   * empty buffers, and so does a single row or column for the indices.
   */
  lemma MeshCounts(w: int, h: int, height: HeightField, normalize: Normalizer)
    ensures |GenerateTerrain(w, h, height, normalize).vertices| == 6 * (Count(h) * Count(w))
    ensures |GenerateTerrain(w, h, height, normalize).indices| ==
      if 1 < w && 1 < h then 6 * ((h - 1) * (w - 1)) else 0
  {
    var pos := Grid(w, h, height);
    var tris := Triangles(w, h);
    GridRowsLength(w, height, h);
    SizeIsProduct(w, h);
    TrianglesShape(w, h);
    PackLength(pos, Accumulate(pos, tris, normalize), normalize);
    FlattenLength(tris);
  }

  /**
   * The record of vertex `Index(w, x, z)` starts with the position
   * `(x, height(x, z), z)` and ends with the normalized sum of the face
   * normals of the triangles around it.
   */
  lemma MeshVertices(w: int, h: int, height: HeightField, normalize: Normalizer, x: int, z: int)
    requires 0 <= x < w && 0 <= z < h
    ensures var pos, tris, m := Grid(w, h, height), Triangles(w, h), GenerateTerrain(w, h, height, normalize);
      var i := Index(w, x, z);
      && AllValid(tris, |pos|)
      && 0 <= i && 6 * i + 6 <= |m.vertices|
      && m.vertices[6 * i..6 * i + 6]
        == Record(Vec3(x as real, height(x, z), z as real), normalize(NormalSum(pos, tris, normalize, i)))
  {
    var pos, tris := Grid(w, h, height), Triangles(w, h);
    GridRowsLength(w, height, h);
    TrianglesShape(w, h);
    var normals := Accumulate(pos, tris, normalize);
    var i := Index(w, x, z);
    GridRowsAt(w, height, h, x, z);
    AccumulateIsNormalSum(pos, tris, normalize);
    assert normals[i] == NormalSum(pos, tris, normalize, i);
    PackLength(pos, normals, normalize);
    PackAt(pos, normals, normalize, i);
  }

  /** Every entry of the index buffer names a complete record of the vertex buffer. */
  lemma MeshIndicesInRange(w: int, h: int, height: HeightField, normalize: Normalizer)
    ensures var m := GenerateTerrain(w, h, height, normalize);
      forall k :: 0 <= k < |m.indices| ==> 0 <= m.indices[k] && 6 * m.indices[k] + 6 <= |m.vertices|
  {
    var pos, tris := Grid(w, h, height), Triangles(w, h);
    GridRowsLength(w, height, h);
    TrianglesShape(w, h);
    PackLength(pos, Accumulate(pos, tris, normalize), normalize);
    FlattenInRange(tris, |pos|);
  }

  /**
   * Cell `(x, z)` contributes the six indices `i0, i2, i1, i1, i2, i3`
   * (the same winding for every cell) at position `6 * Cell(w, x, z)`.
   */
  lemma MeshWinding(w: int, h: int, height: HeightField, normalize: Normalizer, x: int, z: int)
    requires 0 <= x < w - 1 && 0 <= z < h - 1
    ensures var m, c := GenerateTerrain(w, h, height, normalize), Cell(w, x, z);
      var i0, i1, i2, i3 := Index(w, x, z), Index(w, x + 1, z), Index(w, x, z + 1), Index(w, x + 1, z + 1);
      && 0 <= c && 6 * c + 6 <= |m.indices|
      && m.indices[6 * c..6 * c + 6] == [i0, i2, i1, i1, i2, i3]
  {
    TrianglesWinding(w, h, x, z);
    assert GenerateTerrain(w, h, height, normalize).indices == Flatten(Triangles(w, h));
  }

  lemma TrianglesWinding(w: int, h: int, x: int, z: int)
    requires 0 <= x < w - 1 && 0 <= z < h - 1
    ensures var idx, c := Flatten(Triangles(w, h)), Cell(w, x, z);
      var i0, i1, i2, i3 := Index(w, x, z), Index(w, x + 1, z), Index(w, x, z + 1), Index(w, x + 1, z + 1);
      && 0 <= c && 6 * c + 6 <= |idx|
      && idx[6 * c..6 * c + 6] == [i0, i2, i1, i1, i2, i3]
  {
    CellRowsAt(w, h - 1, x, z);
    FlattenCell(Triangles(w, h), Cell(w, x, z));
  }

  /**
   * The mesh depends only on the elevations at the grid points: two height
   * functions that agree there give identical buffers.
   */
  lemma OnlyGridHeightsMatter(w: int, h: int, height1: HeightField, height2: HeightField, normalize: Normalizer)
    requires forall x, z :: 0 <= x < w && 0 <= z < h ==> height1(x, z) == height2(x, z)
    ensures GenerateTerrain(w, h, height1, normalize) == GenerateTerrain(w, h, height2, normalize)
  {
    SameGridRows(w, h, height1, height2, h);
  }

  lemma {:induction false} SameGridRows(w: int, h: int, height1: HeightField, height2: HeightField, n: int)
    requires n <= h
    requires forall x, z :: 0 <= x < w && 0 <= z < h ==> height1(x, z) == height2(x, z)
    ensures GridRows(w, height1, n) == GridRows(w, height2, n)
    decreases n
  {
    if n > 0 {
      SameGridRows(w, h, height1, height2, n - 1);
      assert GridRow(w, height1, n - 1) == GridRow(w, height2, n - 1);
    }
  }

  /** The 2 x 2 grid: four vertices and one cell, whose index block is `0, 2, 1, 1, 2, 3`. */
  lemma SingleCellIndices(height: HeightField, normalize: Normalizer)
    ensures var m := GenerateTerrain(2, 2, height, normalize);
      m.indices == [0, 2, 1, 1, 2, 3] && |m.vertices| == 24
  {
    MeshCounts(2, 2, height, normalize);
    MeshWinding(2, 2, height, normalize, 0, 0);
  }

  /** The two triangles of the 2 x 2 grid. */
  lemma SingleCellTriangles()
    ensures Triangles(2, 2) == [Tri(0, 2, 1), Tri(1, 2, 3)]
  {
    CellRowsAt(2, 1, 0, 0);
    CellRowsLength(2, 1);
  }

  /**
   * In the 2 x 2 grid the corners 0 and 3 each touch one triangle and
   * receive its face normal; the vertices 1 and 2 on the shared diagonal
   * receive both.
   */
  lemma SingleCellNormals(height: HeightField, normalize: Normalizer)
    ensures var pos, m := Grid(2, 2, height), GenerateTerrain(2, 2, height, normalize);
      |pos| == 4 && |m.vertices| == 24 &&
      var n1 := FaceNormal(pos, Tri(0, 2, 1), normalize);
      var n2 := FaceNormal(pos, Tri(1, 2, 3), normalize);
      && m.vertices[0..6] == Record(pos[0], normalize(Add(Zero, n1)))
      && m.vertices[6..12] == Record(pos[1], normalize(Add(Add(Zero, n1), n2)))
      && m.vertices[12..18] == Record(pos[2], normalize(Add(Add(Zero, n1), n2)))
      && m.vertices[18..24] == Record(pos[3], normalize(Add(Zero, n2)))
  {
    var pos, tris := Grid(2, 2, height), Triangles(2, 2);
    var m := GenerateTerrain(2, 2, height, normalize);
    GridRowsLength(2, height, 2);
    MeshCounts(2, 2, height, normalize);
    SingleCellTriangles();
    assert tris[..1] == [Tri(0, 2, 1)];
    var normals := Accumulate(pos, tris, normalize);
    assert m.vertices == Pack(pos, normals, normalize);
    AccumulateIsNormalSum(pos, tris, normalize);
    var n1 := FaceNormal(pos, Tri(0, 2, 1), normalize);
    var n2 := FaceNormal(pos, Tri(1, 2, 3), normalize);
    assert tris[..1][..0] == [];
    assert normals[0] == NormalSum(pos, tris, normalize, 0) == Add(Zero, n1);
    assert normals[1] == NormalSum(pos, tris, normalize, 1) == Add(Add(Zero, n1), n2);
    assert normals[2] == NormalSum(pos, tris, normalize, 2) == Add(Add(Zero, n1), n2);
    assert normals[3] == NormalSum(pos, tris, normalize, 3) == Add(Zero, n2);
    PackAt(pos, normals, normalize, 0);
    PackAt(pos, normals, normalize, 1);
    PackAt(pos, normals, normalize, 2);
    PackAt(pos, normals, normalize, 3);
  }
}
