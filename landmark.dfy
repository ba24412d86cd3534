/**
 * The landmark data types shared by the Python scripts and the browser code
 * (src/lib/models/Landmark.ts), and the float-to-pixel conversions they use.
 */
module Landmark {

  /** A MediaPipe landmark: coordinates normalised to the image size. */
  datatype Landmark3d = Landmark3d(x: real, y: real, z: real)

  /** A landmark in pixel space (`Landmark2d`, or one `[x, y]` pair of the Python scripts). */
  datatype Landmark2d = Landmark2d(x: int, y: int)

  /** One hand as MediaPipe reports it: a non-empty ordered list of landmarks, index 0 the wrist. */
  type Hand = h: seq<Landmark3d> | |h| > 0 witness [Landmark3d(0.0, 0.0, 0.0)]

  /** Python's `int()` applied to a number: truncation toward zero. */
  function Trunc(r: real): (n: int)
    ensures r >= 0.0 ==> n as real <= r < n as real + 1.0
    ensures r < 0.0 ==> n as real - 1.0 < r <= n as real
  {
    if r >= 0.0 then r.Floor else -((-r).Floor)
  }

  /** JavaScript's `Math.floor`. */
  function JsFloor(r: real): (n: int)
    ensures n as real <= r < n as real + 1.0
  {
    r.Floor
  }

  /**
   * Python's `int()` and JavaScript's `Math.floor` agree exactly on the non-negative numbers
   * and on the integers; on every other negative number truncation is one above the floor.
   */
  lemma TruncAgreesWithFloor(r: real)
    ensures Trunc(r) == JsFloor(r) <==> (r >= 0.0 || r == r.Floor as real)
    ensures Trunc(r) != JsFloor(r) ==> Trunc(r) == JsFloor(r) + 1
  {
    if r < 0.0 && r != r.Floor as real {
      assert (-r).Floor as real <= -r;
      assert -r < ((-r).Floor + 1) as real;
      assert r.Floor as real < r;
    }
  }

  /** A point shifted by a pixel offset. */
  function Shift(p: Landmark2d, dx: int, dy: int): Landmark2d
  {
    Landmark2d(p.x + dx, p.y + dy)
  }

  /**
   * One landmark in pixels as the Python scripts compute it: `min(int(landmark.x * width), width - 1)`,
   * and the same for y.
   */
  function PixelOf(l: Landmark3d, width: int, height: int): (p: Landmark2d)
    ensures p.x <= width - 1 && p.y <= height - 1
  {
    Landmark2d(Min(Trunc(l.x * width as real), width - 1), Min(Trunc(l.y * height as real), height - 1))
  }

  function Min(a: int, b: int): int
  {
    if a <= b then a else b
  }

  function Max(a: int, b: int): int
  {
    if a >= b then a else b
  }

  /** The pixel coordinates of every landmark, in landmark order. */
  function Pixels(ls: seq<Landmark3d>, width: int, height: int): (r: seq<Landmark2d>)
    ensures |r| == |ls|
  {
    seq(|ls|, i requires 0 <= i < |ls| => PixelOf(ls[i], width, height))
  }
}
