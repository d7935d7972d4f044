# Terrain viewer core, modelled in Dafny

The program is a small OpenGL terrain viewer. It builds a heightfield mesh and
flies a camera over it with the keyboard and mouse. P toggles the shading model
and F cycles wireframe / flat / smooth display. A 200 x 200 minimap traces the
camera's path: each significant move is clipped to the minimap with
Cohen-Sutherland and rasterised with Bresenham.

This project models the computational core of the viewer:

- `arith.dfy` (`IntArith`): `Times`, a recursive integer product. The grid
  index and Bresenham error formulas use it, so the solver never sees a product
  of two variables, which its nonlinear arithmetic handles badly. `TimesIsMul`
  connects it to `*`.
- `math3d.dfy` (`Math3D`): the vector and matrix types and their operations
  (`Vec3`, `Mat4`, identity, product, translate, scale, orthographic and
  perspective projection).
- `bresenham.dfy` (`Bresenham`): `bresenhamLine`.
  - `Line` is a reference definition, one cursor step per loop iteration.
  - `BresenhamLine` is the source's loop, proved equal to `Line`.
  - The loop invariant bounds the distance from the exact line.
- `clipping.dfy` (`CohenSutherland`): `computeOutCode` and `cohenSutherlandClip`.
  - `Clip` is a recursive reference definition with a termination measure.
  - `CohenSutherlandClip` is the source's loop, proved equal to `Clip`.
  - `RejectedMissesWindow` and `AcceptedKeepsInside` state what clipping means:
    a rejected segment has no point in the window, and an accepted one keeps
    every point of the original that lies in it.
- `terrain.dfy` (`Terrain`): `generateTerrain`.
  - It builds the vertex grid, the two triangles per cell, the accumulation of
    face normals onto corners, and the six-float vertex records.
- `camera.dfy` (`Camera`): the constructor, `processKeyboard` and
  `processMouseMovement`.
- `keyinput.dfy` (`KeyInput`): the P and F edge-triggered toggles of `processInput`.
- `pathtrace.dfy` (`PathTrace`): the per-frame minimap path update of the main loop.

Single-precision floats are modelled as `real`, and C++ `int` as the unbounded
`int`. Functions the core calls but cannot define exactly become parameters:
`sqrt` inside `normalize`, the terrain's sine/cosine height formula, `tan` in the
perspective projection, and the sine/cosine of `updateCameraVectors`. Every
property therefore holds for any such function.

## Model

| member | source | states |
|---|---|---|
| Math3D.Add | include/Math3D.h:15 | Componentwise sum. It has no contract of its own; `AddThenSub` states that `Sub` undoes it. |
| Math3D.Sub | include/Math3D.h:16 | Componentwise difference. It has no contract of its own; `AddThenSub` states that it undoes `Add`. |
| Math3D.Scale | include/Math3D.h:17 | Multiplies each component by a scalar. It has no contract of its own; `Normalize` and `UnitAfterDivision` use it to state that scaling by the length restores a normalized vector. |
| Math3D.Dot | include/Math3D.h:20 | Sum of componentwise products. It has no contract of its own; `DotSymmetric` and `CrossOrthogonal` state its properties. |
| Math3D.Cross | include/Math3D.h:23-25 | The cross product. It has no contract of its own; `CrossAntiCommutative` and `CrossOrthogonal` state its properties. |
| Math3D.Mul | include/Math3D.h:47-57 | The 4 x 4 matrix product. It has no contract of its own; `EntryOfMul` gives each entry, `MulLoop` proves the triple loop computes it, and `IdentityLeft` and `IdentityRight` show the identity is its unit. |
| Math3D.Normalize | include/Math3D.h:28-32 | A vector of positive length comes back with unit length, and scaling it by the length restores the input. The zero vector is returned unchanged, and the result is zero exactly when the input is. |
| Math3D.UnitAfterDivision | include/Math3D.h:29-30 | Dividing each component by the length `len`, where `len * len` is the vector's dot product with itself, gives a unit vector that is non-zero iff the input is, and that times `len` is the input. |
| Math3D.AddThenSub | include/Math3D.h:15-16 | Vector subtraction undoes addition, in either order. |
| Math3D.DotSymmetric | include/Math3D.h:20 | The dot product is symmetric. |
| Math3D.CrossAntiCommutative | include/Math3D.h:23-25 | Swapping the operands of the cross product negates it. |
| Math3D.CrossOrthogonal | include/Math3D.h:23-25 | The cross product is orthogonal to both operands: the property the face normals rely on. |
| Math3D.Identity | include/Math3D.h:41-44 | The default matrix has ones on the diagonal and zeros elsewhere. |
| Math3D.EntryOfMul | include/Math3D.h:47-57 | Entry (i, j) of a product is the sum over k of `a[i][k] * b[k][j]`. |
| Math3D.MulLoop | include/Math3D.h:47-57 | The triple loop computes the matrix product. |
| Math3D.IdentityLeft | include/Math3D.h:41-57 | The identity is a left unit of the product. |
| Math3D.IdentityRight | include/Math3D.h:41-57 | The identity is a right unit of the product. |
| Math3D.Translate | include/Math3D.h:60-64 | The translation matrix is the identity except that row 3 holds the offset. |
| Math3D.TranslateMovesPoints | include/Math3D.h:60-64 | In the row-vector convention, a translation matrix adds its offset to every point and gives w = 1. |
| Math3D.TranslateCompose | include/Math3D.h:47-64 | The product of two translations is the translation by the sum of the offsets. |
| Math3D.ScaleMatrix | include/Math3D.h:67-71 | The scale matrix is the identity except for the three scale factors on the diagonal. |
| Math3D.ScaleScalesPoints | include/Math3D.h:67-71 | A scale matrix multiplies each coordinate by its factor. |
| Math3D.Ortho | include/Math3D.h:98-107 | Each entry of the orthographic matrix is given by its formula, and every other off-diagonal entry of the first three rows is zero. |
| Math3D.OrthoMapsBoxToCube | include/Math3D.h:98-107 | The near-bottom-left and far-top-right corners of the view box map to (-1, -1, -1) and (1, 1, 1). |
| Math3D.Perspective | include/Math3D.h:84-95 | Each entry of the perspective matrix is given by its formula. Entry (3, 3) is reset to zero and entry (2, 3) is -1. All other off-diagonal entries are zero. |
| Math3D.PerspectiveDepthRange | include/Math3D.h:84-95 | The near plane maps to clip depth -near with w = near, and the far plane to depth far with w = far: NDC depths -1 and 1. |
| Bresenham.Advance | include/Algorithms2D.h:33-35 | One loop iteration after the point is emitted. It has no contract of its own; `AdvanceKeepsTracking`, `AdvanceIsAdjacent` and `InvStep` state what it keeps and how it moves. |
| Bresenham.AdvanceKeepsTracking | include/Algorithms2D.h:33-35 | One loop iteration away from the end point keeps the invariant, and it takes exactly one step along the major axis. The invariant is that the accumulated error is the deviation from the exact line, bounded by half a pixel. |
| Bresenham.AdvanceIsAdjacent | include/Algorithms2D.h:33-35 | Each iteration moves to an 8-connected neighbour, never staying in place. |
| Bresenham.InvStep | include/Algorithms2D.h:33-35 | The two error tests step x and y so that the deviation stays within bounds and the major axis always advances. |
| Bresenham.EndIffNoneRemaining | include/Algorithms2D.h:32 | Under the invariant, the loop's exit test holds exactly when no major-axis steps remain. |
| Bresenham.TrackingIsNearLine | include/Algorithms2D.h:21-36 | Every point the loop visits lies between the endpoints and within half a pixel of the exact line along the minor axis. |
| Bresenham.IterTracking | include/Algorithms2D.h:25-36 | After k iterations, k at most the longer extent, the invariant holds and k major-axis steps have been taken. |
| Bresenham.IterEnd | include/Algorithms2D.h:32 | The loop reaches the end point after exactly `max(dx, dy)` iterations, and not before. |
| Bresenham.TraceAt | include/Algorithms2D.h:27-36 | The n emitted points are the cursor positions after 0 to n-1 iterations, in order. |
| Bresenham.Line | include/Algorithms2D.h:19-38 | The reference line: the pixels of the cursors the loop visits up to the end point. It has no contract of its own; `LineShape`, `LineFollowsExactLine` and `LineInBox` state its properties, and `BresenhamLine` proves the loop computes it. |
| Bresenham.LineShape | include/Algorithms2D.h:19-38 | The line runs from (x1, y1) to (x2, y2), with `max(abs dx, abs dy) + 1` points forming an 8-connected chain: no pixel skipped or repeated. |
| Bresenham.LineFollowsExactLine | include/Algorithms2D.h:19-38 | The k-th point has taken k major-axis steps and lies within half a pixel of the exact line. |
| Bresenham.LineInBox | include/Algorithms2D.h:19-38 | Every point lies in the bounding box of the two endpoints. |
| Bresenham.Step | include/Algorithms2D.h:33-35 | The two error updates of the loop body compute one cursor advance. |
| Bresenham.BresenhamLine | include/Algorithms2D.h:19-38 | The source's loop returns exactly the reference line. |
| Bresenham.HorizontalLine | include/Algorithms2D.h:19-38 | A horizontal line of length n is the n + 1 consecutive pixels of its row. |
| Bresenham.DiagonalLine | include/Algorithms2D.h:19-38 | A 45-degree line steps x and y together on every iteration. |
| Bresenham.ShallowExample | include/Algorithms2D.h:19-38 | A shallow (4, 2) line gives the five pixels (0,0), (1,0), (2,1), (3,1), (4,2), relative to its start. |
| Bresenham.ReversedExample | include/Algorithms2D.h:19-38 | Both step signs negative: the line walks the diagonal backwards from its first endpoint. |
| Bresenham.SinglePoint | include/Algorithms2D.h:19-38 | Equal endpoints give the single pixel. |
| CohenSutherland.ComputeOutCode | include/Algorithms2D.h:41-48 | LEFT and RIGHT are set by x, and BOTTOM and TOP by y. LEFT is tested before RIGHT and BOTTOM before TOP. The two bits of one axis are never both set, and the code is INSIDE exactly when the point is in the rectangle. |
| CohenSutherland.MeasureDrops | include/Algorithms2D.h:58-91 | Replacing the outside endpoint's code, where the new code has no bit on the clipped axis and no new bit, lowers the loop's measure. |
| CohenSutherland.NoDivisionByZero | include/Algorithms2D.h:69-80 | When the loop must clip, the divisor of the branch it takes is non-zero. |
| CohenSutherland.IntersectionIsLerp | include/Algorithms2D.h:69-81 | Each of the four intersection formulas is a point on the segment's line at the side's parameter. |
| CohenSutherland.Intersection | include/Algorithms2D.h:69-81 | The point computed for the chosen out-code lies on the side line that branch cuts against: y = ymax for TOP, y = ymin for BOTTOM, x = xmax for RIGHT, x = xmin for LEFT. |
| CohenSutherland.ClipStep | include/Algorithms2D.h:65-89 | One clipping iteration keeps the endpoint that was not chosen and moves the chosen one onto the side line of the branch taken. |
| CohenSutherland.StepPoint | include/Algorithms2D.h:65-81 | The intersection the loop computes lies between the current endpoints (parameter in [0, 1]). |
| CohenSutherland.StepOnSide | include/Algorithms2D.h:69-89 | The new endpoint's code has no bit left on the axis just clipped. |
| CohenSutherland.StepWithin | include/Algorithms2D.h:83-89 | The new endpoint's code sets no bit that neither endpoint had. |
| CohenSutherland.StepDecreases | include/Algorithms2D.h:58-91 | Each clipping iteration strictly lowers the measure, so the loop terminates. |
| CohenSutherland.Clip | include/Algorithms2D.h:52-93 | An accepted segment has both endpoints inside the rectangle. A rejected one has endpoints sharing an outside half-plane. |
| CohenSutherland.StepTracks | include/Algorithms2D.h:65-89 | One iteration cuts the current piece of the original segment to a smaller piece, and every point of the original inside the window stays within it. |
| CohenSutherland.ClipTracks | include/Algorithms2D.h:58-91 | If every inside point of the original segment lies on the current piece, an accepted result contains all of them and a rejection means there are none. |
| CohenSutherland.OnSegmentIsLerp | include/Algorithms2D.h:52 | Every point of a segment is the point at some parameter in [0, 1]. |
| CohenSutherland.RejectedMissesWindow | include/Algorithms2D.h:52-93 | A rejected segment has no point inside the rectangle: rejection is never a false negative. |
| CohenSutherland.AcceptedKeepsInside | include/Algorithms2D.h:52-93 | An accepted segment still contains every point of the original that lies inside the rectangle: clipping discards only outside parts. |
| CohenSutherland.InsideUnchanged | include/Algorithms2D.h:59-61 | A segment already inside is accepted unchanged. |
| CohenSutherland.SharedSideRejected | include/Algorithms2D.h:62-63 | A segment whose endpoints share an outside side is rejected unchanged. |
| CohenSutherland.ClipOnSegment | include/Algorithms2D.h:58-91 | Clipping keeps endpoints on any segment that contains the input's endpoints. |
| CohenSutherland.ClipStaysOnOriginal | include/Algorithms2D.h:52-93 | The clipped endpoints lie on the original segment: collinear with it and within its extent. |
| CohenSutherland.IntersectSide | include/Algorithms2D.h:65-81 | The branch cascade TOP, BOTTOM, RIGHT, LEFT computes the intersection with the selected side. |
| CohenSutherland.ClipUnfold | include/Algorithms2D.h:58-91 | The three outcomes of one iteration: accept, reject, or clip once and repeat. |
| CohenSutherland.CohenSutherlandClip | include/Algorithms2D.h:52-93 | The in-place loop returns the reference clip's verdict and endpoints. |
| CohenSutherland.CrossingExample | include/Algorithms2D.h:52-93 | The segment (-5, 50) to (250, 50) is clipped to (0, 50) to (200, 50) by the minimap rectangle. |
| CohenSutherland.RejectExample | include/Algorithms2D.h:62-63 | A segment entirely below and left of the rectangle is rejected. |
| Terrain.SizeIsProduct | include/Terrain.h:21-37 | The vertex count is `height * width`, or zero for non-positive dimensions. |
| Terrain.IndexBound | include/Terrain.h:47-50 | The index `z * width + x` of an in-grid point lies in `[0, rows * width)`. |
| Terrain.GridRowsLength | include/Terrain.h:22-37 | n rows of the scan hold `n * width` vertices. |
| Terrain.GridRowsAt | include/Terrain.h:22-37 | The vertex at index `z * width + x` is `(x, height(x, z), z)`. |
| Terrain.GridLayout | include/Terrain.h:21-37 | The grid has `width * height` vertices, stored row by row, each at its grid coordinates with its elevation. |
| Terrain.CellRowAt | include/Terrain.h:45-73 | Cell x of row z contributes triangles 2x and 2x + 1 of its row. |
| Terrain.CellRowsLength | include/Terrain.h:44-75 | n rows of cells give `2 * n * (width - 1)` triangles. |
| Terrain.CellRowsAt | include/Terrain.h:44-75 | Cell (x, z) supplies triangles `2c` and `2c + 1`, where c is `z * (width - 1) + x`. |
| Terrain.CellValid | include/Terrain.h:47-52 | A cell's two triangles use three distinct in-range vertices each. |
| Terrain.TrianglesShape | include/Terrain.h:44-75 | There are `2 * (height - 1) * (width - 1)` triangles (none for a single row or column), all valid. |
| Terrain.FlattenAt | include/Terrain.h:72-73 | Triangle k occupies index-buffer entries `3k` to `3k + 2`, in corner order. |
| Terrain.FlattenCell | include/Terrain.h:72-73 | A cell's triangle pair occupies six consecutive index-buffer entries. |
| Terrain.FlattenInRange | include/Terrain.h:72-73 | Every index names a vertex of the grid. |
| Terrain.CellFacesPointUp | include/Terrain.h:47-65 | For any elevations, both edge cross products of a cell have y component 1: the faces point up and are never degenerate. |
| Terrain.AddFace | include/Terrain.h:57-69 | A triangle's face normal is added to each of its three corners, and every other vertex keeps its sum. |
| Terrain.AccumulateIsNormalSum | include/Terrain.h:41-75 | After the loop, each vertex holds the sum of the face normals of the triangles touching it, in loop order. |
| Terrain.PackLength | include/Terrain.h:78-87 | The vertex buffer holds six floats per vertex. |
| Terrain.PackAt | include/Terrain.h:78-87 | Record i is vertex i's position followed by its normalized accumulated normal. |
| Terrain.GenerateTerrain | include/Terrain.h:19-88 | The whole builder: grid, triangles, accumulated normals, then packing. It has no contract of its own; `MeshCounts`, `MeshVertices`, `MeshIndicesInRange` and `MeshWinding` state what it returns. |
| Terrain.MeshCounts | include/Terrain.h:19-88 | The buffers hold `6 * width * height` floats and `6 * (width - 1) * (height - 1)` indices. Both are empty for non-positive dimensions. |
| Terrain.MeshVertices | include/Terrain.h:19-88 | Vertex `z * width + x` is `(x, height(x, z), z)` followed by the normalized sum of its adjacent face normals. |
| Terrain.MeshIndicesInRange | include/Terrain.h:19-88 | Every index names a complete six-float record of the vertex buffer. |
| Terrain.TrianglesWinding | include/Terrain.h:44-75 | Cell (x, z)'s indices are `i0, i2, i1, i1, i2, i3`. |
| Terrain.MeshWinding | include/Terrain.h:19-88 | In the generated mesh, cell (x, z)'s six indices sit at position `6 * cell` with the fixed winding. |
| Terrain.SameGridRows | include/Terrain.h:22-37 | Height functions that agree on the grid give the same rows. |
| Terrain.OnlyGridHeightsMatter | include/Terrain.h:19-88 | The mesh depends only on the elevations at grid points. |
| Terrain.SingleCellTriangles | include/Terrain.h:44-75 | A 2 x 2 grid has the two triangles (0, 2, 1) and (1, 2, 3). |
| Terrain.SingleCellIndices | include/Terrain.h:19-88 | A 2 x 2 grid gives indices 0, 2, 1, 1, 2, 3 and 24 floats. |
| Terrain.SingleCellNormals | include/Terrain.h:19-88 | In a 2 x 2 grid, corners 0 and 3 carry one face normal each, and corners 1 and 2 carry the sum of both. |
| Camera.New | include/Camera.h:13 | A new camera sits at the start position facing -z with +y up, yaw -90 and pitch 0. |
| Camera.InitialRight | include/Camera.h:22 | The initial right vector `front x up` is +x. |
| Camera.ProcessKeyboard | include/Camera.h:20-29 | Only the position changes. It moves by `5 * deltaTime` along front (W, S) or along the normalized `front x up` (A, D). Any other direction leaves the camera unchanged. |
| Camera.ForwardThenBackward | include/Camera.h:24-25 | W then S over the same time step returns the camera to where it was. |
| Camera.LeftThenRight | include/Camera.h:26-27 | A then D over the same time step returns the camera to where it was. |
| Camera.SplitFrame | include/Camera.h:20-29 | Two half time steps move the camera as far as one full step. |
| Camera.ClampPitch | include/Camera.h:39-40 | The pitch is kept in [-89, 89]: unchanged inside, saturated outside. |
| Camera.ProcessMouseMovement | include/Camera.h:32-43 | Yaw grows by 0.1 of the x offset and the pitch by 0.1 of the y offset, clamped to plus or minus 89. Position and up do not change. `front` is recomputed from the new angles. |
| Camera.PitchSaturates | include/Camera.h:37-40 | At the upper limit, further upward movement leaves the pitch at 89. |
| Camera.MouseUndo | include/Camera.h:32-43 | Without clamping, the opposite mouse movement restores the camera exactly. |
| KeyInput.ProcessInput | src/main.cpp:71-91 | A key's setting changes exactly when the key is pressed and was not seen pressed. Each flag ends equal to its key's state, and valid settings stay valid. |
| KeyInput.RunFlags | src/main.cpp:71-91 | After any frames, each flag equals its key's state in the last frame. |
| KeyInput.RunCountsP | src/main.cpp:71-79 | The shading model flips once per fresh press of P over any sequence of frames. |
| KeyInput.RunCountsF | src/main.cpp:81-91 | The display mode advances, modulo 3, once per fresh press of F. |
| KeyInput.HeldKeyTogglesOnce | src/main.cpp:71-79 | P held down for any number of frames toggles the shading model once. |
| KeyInput.DisplayCycle | src/main.cpp:81-91 | Three presses of F return to the starting display mode. |
| KeyInput.FromStartUp | src/main.cpp:30-39 | The start-up settings are valid. From them, successive fresh presses of F give wireframe, flat, then smooth again, and the first press of P selects Phong. |
| PathTrace.Trunc | src/main.cpp:206-209 | The `(int)` cast truncates toward zero and is within one of its argument. |
| PathTrace.ToMinimap | src/main.cpp:206-209 | A world coordinate in [-25, 25] maps to a pixel in [0, 200], namely the integer part of `(c + 25) * 4`. |
| PathTrace.Moved | src/main.cpp:203 | The movement test: more than half a unit along x or along z. It has no contract of its own; `Update` states that nothing happens without it. |
| PathTrace.PixelSegment | src/main.cpp:206-211 | The segment from the last recorded position to the current one, in minimap pixels. It has no contract of its own; `CrossingFrame` pins one instance. |
| PathTrace.Pixels | src/main.cpp:212-219 | The pixels a clip contributes: none when rejected, the Bresenham line of the truncated endpoints when accepted. It has no contract of its own; `UpdateAppends` and `PixelsInMinimap` state its properties. |
| PathTrace.TruncTowardZero | src/main.cpp:206-209 | World x = -25.1 maps to pixel 0 (toward zero, not down), and -26 maps to -4. |
| PathTrace.TruncBetween | src/main.cpp:217 | Truncating a value between two integers stays between them. |
| PathTrace.Update | src/main.cpp:203-221 | A move of at most half a unit along both x and z changes nothing. Otherwise the trace only grows and `lastPos` becomes the current position, even when the clip rejects. |
| PathTrace.PixelsInMinimap | src/main.cpp:211-218 | Whatever the clip accepts rasterises to pixels inside the 200 x 200 minimap. |
| PathTrace.UpdateAppends | src/main.cpp:203-221 | A rejected clip appends nothing. An accepted one appends a connected chain from the truncated clipped start to the truncated clipped end, inside the minimap. |
| PathTrace.UpdateStaysInMinimap | src/main.cpp:203-221 | A frame keeps the whole trace inside the minimap. |
| PathTrace.RunStaysInMinimap | src/main.cpp:203-221 | Over any sequence of frames, a trace inside the minimap stays inside it. |
| PathTrace.RunExtends | src/main.cpp:218 | The trace is only appended to: every earlier state's trace is a prefix of the latest one. |
| PathTrace.SessionInMinimap | src/main.cpp:146-221 | Starting from the empty trace, the trace never leaves the minimap. |
| PathTrace.CrossingFrame | src/main.cpp:203-221 | Moving along z = -12.5 from x = -26.25 to x = 37.5 appends the 201 pixels (0..200, 50). |

## Left out

- Rendering, shaders, window and input callbacks are not modelled. This covers GL buffers, the minimap frame, drawing the trace, the light keys I/J/K/L/U/O, ESC, and the mouse callback's offset computation. They are I/O.
- `rotateY`, `lookAt`, `getViewMatrix` and `updateCameraVectors` are left out. They are sines, cosines and square roots with no exact real-number model. `Camera.ProcessMouseMovement` takes the recomputation of `front` as the parameter `orient`.
- Math3D.Normalize: takes the length as a parameter constrained by `len * len == dot(v, v)`, because `sqrt` has no exact model.
- Math3D.Perspective: takes `tan(fov / 2)` as a parameter, and requires a non-zero `aspect * tan` and `far != near`. Otherwise the source divides by zero.
- Math3D.Ortho: requires distinct bounds on each axis. Otherwise the source divides by zero.
- All float arithmetic is exact real arithmetic, so no IEEE rounding is modelled. `0.1f` is modelled as the exact tenth.
- Bresenham.Line: returns 2-D pixels. The source stores each as a `Vec3` with z = 0.
- Integer overflow of `int` in `bresenhamLine` and in the terrain's `z * width + x` is not modelled, nor the `unsigned int` index buffer. Integers are unbounded.
- PathTrace.Trunc: the `(int)` cast is undefined in C++ for values out of range. The model truncates every real.
- CohenSutherland.Clip: requires `xmin <= xmax` and `ymin <= ymax`. The termination measure relies on it: clipping against a side must clear that axis's bits. The only caller of `cohenSutherlandClip` passes (0, 200, 0, 200). For a reversed rectangle every point has LEFT or RIGHT (or BOTTOM or TOP) set, so the C++ function can never accept, but the model does not cover that case.
- Terrain.GenerateTerrain: the height formula is a parameter. Non-positive width or height gives empty buffers, as the code does; the code has no rejection path. Heights are not clamped.
- Terrain.AccumulateIsNormalSum: states the sum in loop order. Vector addition of reals is commutative, so the order is immaterial here, though not for floats.
- Camera.New: orthonormality of the initial frame is not stated, beyond `InitialRight`.
- The console messages `processInput` prints when P or F changes a setting (src/main.cpp:75, 87) are not modelled. They are output only and change no state.
- The WASD dispatch in `processInput` (src/main.cpp:54-58) only calls `processKeyboard`, which `Camera.ProcessKeyboard` models.
