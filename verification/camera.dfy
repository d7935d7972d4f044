/**
 * The fly-through camera (`Camera`): keyboard translation and mouse-look.
 *
 * `updateCameraVectors`, which recomputes `front` from yaw and pitch with
 * sines and cosines, is a parameter of `ProcessMouseMovement`; so is the
 * normalization used for the right vector.  Angles are in degrees.
 */
module Camera {
  import opened Math3D

  datatype Camera = Camera(position: Vec3, front: Vec3, up: Vec3, yaw: real, pitch: real)

  /** The front vector as a function of yaw and pitch (`updateCameraVectors`). */
  type Orientation = (real, real) -> Vec3

  /** Distance travelled per second of `deltaTime`. */
  const Speed: real := 5.0

  /** Degrees of rotation per unit of mouse offset. */
  const Sensitivity: real := 0.1

  /** The pitch never leaves `[-PitchLimit, PitchLimit]` after mouse movement. */
  const PitchLimit: real := 89.0

  /** The movement directions `processKeyboard` understands: W, S, A, D. */
  const Forward := 0
  const Backward := 1
  const Left := 2
  const Right := 3

  /** The initial viewing direction, down the -z axis. */
  const InitialFront := Vec3(0.0, 0.0, -1.0)

  /** The up vector, +y; no operation changes it. */
  const WorldUp := Vec3(0.0, 1.0, 0.0)

  /** `Camera(startPos)`: at `start`, looking down -z with +y up, yaw -90 and pitch 0. */
  function New(start: Vec3): (c: Camera)
    ensures c.position == start && c.front == InitialFront && c.up == WorldUp
    ensures c.yaw == -90.0 && c.pitch == 0.0
  {
    Camera(start, InitialFront, WorldUp, -90.0, 0.0)
  }

  /**
   * The unnormalized right vector `front x up` of a new camera is already
   * the unit +x axis, so A and D first strafe along x.
   */
  lemma InitialRight()
    ensures Cross(InitialFront, WorldUp) == Vec3(1.0, 0.0, 0.0)
  {
  }

  /** The offset `processKeyboard` adds to the position for `direction`. */
  function Displacement(c: Camera, direction: int, deltaTime: real, normalize: Normalizer): Vec3 {
    var velocity := Speed * deltaTime;
    var right := normalize(Cross(c.front, c.up));
    if direction == Forward then Scale(c.front, velocity)
    else if direction == Backward then Scale(c.front, -velocity)
    else if direction == Left then Scale(right, -velocity)
    else if direction == Right then Scale(right, velocity)
    else Zero
  }

  /**
   * `processKeyboard(direction, deltaTime)`: W and S move along `front`, A
   * and D along the normalized `front x up`, each by `5 * deltaTime`; any
   * other direction leaves the camera as it is.  Only the position changes.
   */
  function ProcessKeyboard(c: Camera, direction: int, deltaTime: real, normalize: Normalizer): (r: Camera)
    ensures r.front == c.front && r.up == c.up && r.yaw == c.yaw && r.pitch == c.pitch
    ensures !(Forward <= direction <= Right) ==> r == c
    ensures Sub(r.position, c.position) == Displacement(c, direction, deltaTime, normalize)
  {
    var velocity := Speed * deltaTime;
    var right := normalize(Cross(c.front, c.up));
    var p0 := c.position;
    var p1 := if direction == Forward then Add(p0, Scale(c.front, velocity)) else p0;
    var p2 := if direction == Backward then Sub(p1, Scale(c.front, velocity)) else p1;
    var p3 := if direction == Left then Sub(p2, Scale(right, velocity)) else p2;
    var p4 := if direction == Right then Add(p3, Scale(right, velocity)) else p3;
    c.(position := p4)
  }

  /** Moving forward and then back for the same time returns to the starting point. */
  lemma ForwardThenBackward(c: Camera, deltaTime: real, normalize: Normalizer)
    ensures ProcessKeyboard(ProcessKeyboard(c, Forward, deltaTime, normalize), Backward, deltaTime, normalize) == c
  {
  }

  /** Strafing left and then right for the same time returns to the starting point. */
  lemma LeftThenRight(c: Camera, deltaTime: real, normalize: Normalizer)
    ensures ProcessKeyboard(ProcessKeyboard(c, Left, deltaTime, normalize), Right, deltaTime, normalize) == c
  {
  }

  /** The displacement grows linearly with time: two half-frames make one frame. */
  lemma SplitFrame(c: Camera, direction: int, deltaTime: real, normalize: Normalizer)
    ensures var half := ProcessKeyboard(c, direction, deltaTime / 2.0, normalize);
      ProcessKeyboard(half, direction, deltaTime / 2.0, normalize) == ProcessKeyboard(c, direction, deltaTime, normalize)
  {
  }

  /** `pitch` after the two clamping tests. */
  function ClampPitch(p: real): (r: real)
    ensures -PitchLimit <= r <= PitchLimit
    ensures -PitchLimit <= p <= PitchLimit ==> r == p
    ensures p > PitchLimit ==> r == PitchLimit
    ensures p < -PitchLimit ==> r == -PitchLimit
  {
    var q := if p > PitchLimit then PitchLimit else p;
    if q < -PitchLimit then -PitchLimit else q
  }

  /**
   * `processMouseMovement(xoffset, yoffset)`: the offsets are scaled by the
   * sensitivity and added to yaw and pitch, the pitch is clamped to
   * `[-89, 89]`, and `front` is recomputed from the new angles.
   */
  function ProcessMouseMovement(c: Camera, xoffset: real, yoffset: real, orient: Orientation): (r: Camera)
    ensures r.yaw == c.yaw + Sensitivity * xoffset
    ensures -PitchLimit <= r.pitch <= PitchLimit
    ensures -PitchLimit <= c.pitch + Sensitivity * yoffset <= PitchLimit ==> r.pitch == c.pitch + Sensitivity * yoffset
    ensures r.pitch == ClampPitch(c.pitch + Sensitivity * yoffset)
    ensures r.position == c.position && r.up == c.up
    ensures r.front == orient(r.yaw, r.pitch)
  {
    var x := xoffset * Sensitivity;
    var y := yoffset * Sensitivity;
    var yaw := c.yaw + x;
    var pitch := ClampPitch(c.pitch + y);
    Camera(c.position, orient(yaw, pitch), c.up, yaw, pitch)
  }

  /**
   * Once the pitch is pinned at a limit, pushing further past it changes
   * nothing: the camera cannot turn beyond straight up or straight down.
   */
  lemma PitchSaturates(c: Camera, xoffset: real, yoffset: real, orient: Orientation)
    requires c.pitch == PitchLimit && yoffset >= 0.0
    ensures ProcessMouseMovement(c, xoffset, yoffset, orient).pitch == PitchLimit
  {
  }

  /**
   * A mouse movement undone by the opposite movement restores the camera,
   * provided the pitch did not hit a limit on the way.
   */
  lemma MouseUndo(c: Camera, xoffset: real, yoffset: real, orient: Orientation)
    requires -PitchLimit <= c.pitch <= PitchLimit
    requires -PitchLimit <= c.pitch + Sensitivity * yoffset <= PitchLimit
    requires c.front == orient(c.yaw, c.pitch)
    ensures ProcessMouseMovement(ProcessMouseMovement(c, xoffset, yoffset, orient), -xoffset, -yoffset, orient) == c
  {
  }
}
