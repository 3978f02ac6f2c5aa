/** Scene-engine primitives the combat code touches: optional references,
    2D vectors, a node's "queued for free" flag and a sprite's red tint.
    Colours, playback, physics and the real scene tree are not modelled. */
module Engine {

  datatype Option<T> = None | Some(value: T)

  /** A 2D vector over the reals (the engine's Vector2 of floats). */
  datatype Vec = Vec(x: real, y: real)

  const Zero: Vec := Vec(0.0, 0.0)

  function Abs(r: real): (a: real)
    ensures a >= 0.0 && (a == r || a == -r)
  {
    if r < 0.0 then -r else r
  }

  /** Squared length: comparing it against a squared threshold decides
      `Length() > t` without a square root. */
  function LengthSquared(v: Vec): (l: real)
    ensures l >= 0.0
  {
    v.x * v.x + v.y * v.y
  }

  function Scale(k: real, v: Vec): Vec
  {
    Vec(k * v.x, k * v.y)
  }

  function StartsWith(s: string, prefix: string): bool
  {
    |prefix| <= |s| && s[..|prefix|] == prefix
  }

  /** A scene node seen only through its lifetime: `QueueFree` marks it for
      destruction at the end of the frame, and marking it again changes
      nothing. `sprite` is its child named "Sprite2D", if there is one. */
  class Node {
    var queuedForFree: bool
    const sprite: Sprite2D?

    constructor (sprite: Sprite2D?)
      ensures this.sprite == sprite && !queuedForFree
    {
      this.sprite := sprite;
      queuedForFree := false;
    }
  }

  /** A plain sprite; `tinted` stands for a red `Modulate`. */
  class Sprite2D {
    var tinted: bool

    constructor ()
      ensures !tinted
    {
      tinted := false;
    }
  }
}
