/**
 * The P and F toggles of `processInput`.
 *
 * Each key has a `static bool` that remembers it was seen pressed, so a key
 * held down over many frames toggles its setting once; the flag clears in
 * the first frame the key is reported released.  The camera keys, the light
 * keys and ESC are not part of this model.
 */
module KeyInput {

  /** The display modes F cycles through. */
  const Wireframe := 0
  const Flat := 1
  const Smooth := 2

  /** The settings the two keys control and the two "seen pressed" flags. */
  datatype Toggles = Toggles(shadingModel: int, displayMode: int, pKeyPressed: bool, fKeyPressed: bool)

  /** One frame's key states: `true` when GLFW reports the key as pressed. */
  datatype Keys = Keys(p: bool, f: bool)

  /** The state at start-up: Lambert/Gouraud shading, smooth display, no key seen. */
  const Initial := Toggles(0, Smooth, false, false)

  /** The settings are in range: shading 0 or 1, display mode 0, 1 or 2. */
  predicate Valid(t: Toggles) {
    (t.shadingModel == 0 || t.shadingModel == 1) && 0 <= t.displayMode < 3
  }

  /**
   * One call of `processInput` as far as P and F are concerned: a press not
   * yet seen flips the shading model or advances the display mode and sets
   * the flag; a release clears it.
   */
  function ProcessInput(t: Toggles, k: Keys): (r: Toggles)
    ensures Valid(t) ==> Valid(r)
    ensures r.pKeyPressed == k.p && r.fKeyPressed == k.f
    ensures r.shadingModel != t.shadingModel <==> k.p && !t.pKeyPressed
    ensures r.displayMode != t.displayMode <==> k.f && !t.fKeyPressed
  {
    var shading, pSeen :=
      if k.p && !t.pKeyPressed then 1 - t.shadingModel else t.shadingModel,
      if k.p && !t.pKeyPressed then true else t.pKeyPressed;
    var pSeen' := if !k.p then false else pSeen;
    var mode, fSeen :=
      if k.f && !t.fKeyPressed then (t.displayMode + 1) % 3 else t.displayMode,
      if k.f && !t.fKeyPressed then true else t.fKeyPressed;
    var fSeen' := if !k.f then false else fSeen;
    Toggles(shading, mode, pSeen', fSeen')
  }

  /** The state after a sequence of frames. */
  function Run(t: Toggles, frames: seq<Keys>): Toggles
    decreases |frames|
  {
    if |frames| == 0 then t else ProcessInput(Run(t, frames[..|frames| - 1]), frames[|frames| - 1])
  }

  /**
   * The number of fresh presses in a sequence of per-frame key states: frames
   * where the key is down and was not down the frame before (`held` is the
   * state before the first frame).
   */
  function Presses(held: bool, downs: seq<bool>): nat
    decreases |downs|
  {
    if |downs| == 0 then 0
    else
      var init := downs[..|downs| - 1];
      var before := if |init| == 0 then held else init[|init| - 1];
      Presses(held, init) + if downs[|downs| - 1] && !before then 1 else 0
  }

  function PKeys(frames: seq<Keys>): seq<bool> {
    seq(|frames|, i requires 0 <= i < |frames| => frames[i].p)
  }

  function FKeys(frames: seq<Keys>): seq<bool> {
    seq(|frames|, i requires 0 <= i < |frames| => frames[i].f)
  }

  /** `n` flips of the shading model. */
  function Flipped(shading: int, n: nat): int {
    if n % 2 == 0 then shading else 1 - shading
  }

  /** Each flag ends equal to its key's last reported state. */
  lemma RunFlags(t: Toggles, frames: seq<Keys>)
    ensures var r := Run(t, frames);
      && r.pKeyPressed == (if |frames| == 0 then t.pKeyPressed else frames[|frames| - 1].p)
      && r.fKeyPressed == (if |frames| == 0 then t.fKeyPressed else frames[|frames| - 1].f)
  {
  }

  /** Over any sequence of frames, the shading model flips once per fresh press of P. */
  lemma {:induction false} RunCountsP(t: Toggles, frames: seq<Keys>)
    ensures Run(t, frames).shadingModel == Flipped(t.shadingModel, Presses(t.pKeyPressed, PKeys(frames)))
    decreases |frames|
  {
    if |frames| > 0 {
      var init := frames[..|frames| - 1];
      RunCountsP(t, init);
      RunFlags(t, init);
      assert PKeys(frames)[..|frames| - 1] == PKeys(init);
    }
  }

  lemma AdvanceMod(d: int, n: int)
    requires 0 <= d + n
    ensures ((d + n) % 3 + 1) % 3 == (d + (n + 1)) % 3
  {
  }

  /**
   * Over any sequence of frames, the display mode advances once per fresh
   * press of F, modulo 3.
   */
  lemma {:induction false} RunCountsF(t: Toggles, frames: seq<Keys>)
    requires 0 <= t.displayMode < 3
    ensures Run(t, frames).displayMode == (t.displayMode + Presses(t.fKeyPressed, FKeys(frames))) % 3
    decreases |frames|
  {
    if |frames| > 0 {
      var init := frames[..|frames| - 1];
      RunCountsF(t, init);
      RunFlags(t, init);
      assert FKeys(frames)[..|frames| - 1] == FKeys(init);
      AdvanceMod(t.displayMode, Presses(t.fKeyPressed, FKeys(init)));
    } else {
      assert 0 <= t.displayMode < 3;
    }
  }

  /** A run of frames with every key state equal to `down`. */
  function Constant(down: bool, n: nat): seq<bool> {
    seq(n, _ => down)
  }

  /** Holding a key down for any number of frames counts as one press. */
  lemma {:induction false} HeldIsOnePress(held: bool, n: nat)
    requires 0 < n
    ensures Presses(held, Constant(true, n)) == if held then 0 else 1
    decreases n
  {
    if n > 1 {
      HeldIsOnePress(held, n - 1);
      assert Constant(true, n)[..n - 1] == Constant(true, n - 1);
    } else {
      assert Constant(true, n)[..n - 1] == [];
    }
  }

  /**
   * P held down over `n` frames from a released state toggles the shading
   * model exactly once.
   */
  lemma HeldKeyTogglesOnce(t: Toggles, n: nat)
    requires !t.pKeyPressed && 0 < n
    ensures Run(t, seq(n, _ => Keys(true, false))).shadingModel == 1 - t.shadingModel
  {
    var frames := seq(n, _ => Keys(true, false));
    RunCountsP(t, frames);
    assert PKeys(frames) == Constant(true, n);
    HeldIsOnePress(false, n);
  }

  /** Three fresh presses of F bring the display mode back where it was. */
  lemma DisplayCycle(t: Toggles)
    requires 0 <= t.displayMode < 3 && !t.fKeyPressed
    ensures var press, release := Keys(false, true), Keys(false, false);
      Run(t, [press, release, press, release, press]).displayMode == t.displayMode
  {
    var press, release := Keys(false, true), Keys(false, false);
    var frames := [press, release, press, release, press];
    RunCountsF(t, frames);
    assert FKeys(frames) == [true, false, true, false, true];
    assert Presses(false, [true, false, true, false, true]) == 3 by {
      assert [true, false, true, false, true][..4] == [true, false, true, false];
      assert [true, false, true, false][..3] == [true, false, true];
      assert [true, false, true][..2] == [true, false];
      assert [true, false][..1] == [true];
      assert [true][..0] == [];
    }
  }

  /**
   * From start-up, fresh presses of F step through wireframe, flat and back
   * to smooth, and the first press of P switches to Phong shading.
   */
  lemma FromStartUp()
    ensures Valid(Initial)
    ensures var press, release := Keys(false, true), Keys(false, false);
      && Run(Initial, [press]).displayMode == Wireframe
      && Run(Initial, [press, release, press]).displayMode == Flat
      && Run(Initial, [press, release, press, release, press]).displayMode == Smooth
    ensures Run(Initial, [Keys(true, false)]).shadingModel == 1
  {
    var press, release := Keys(false, true), Keys(false, false);
    assert [press, release, press][..2] == [press, release];
    assert [press, release][..1] == [press];
    assert [press][..0] == [];
    DisplayCycle(Initial);
  }
}
