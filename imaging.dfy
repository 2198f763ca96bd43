/**
 * Values shared by every effect: pixels, the recorded drawing calls, Python's
 * float-to-int conversion and the clamped colour gains.
 */
module Imaging {

  datatype Option<T> = None | Some(value: T)

  /** A pixel in OpenCV's channel order (blue, green, red). Channels are plain
      integers so that staying in byte range is something the model proves. */
  datatype Color = Color(b: int, g: int, r: int)

  const Black := Color(0, 0, 0)

  /** A recorded call of the filled-circle primitive: centre, radius, colour. */
  datatype Circle = Circle(cx: int, cy: int, radius: int, color: Color)

  predicate IsByte(c: int) { 0 <= c <= 255 }

  predicate IsByteColor(c: Color) { IsByte(c.b) && IsByte(c.g) && IsByte(c.r) }

  /** `g` has `h` rows of `w` entries each. */
  predicate IsGrid<T>(g: seq<seq<T>>, h: nat, w: nat)
  {
    |g| == h && forall y :: 0 <= y < h ==> |g[y]| == w
  }

  /** An 8-bit colour frame of height `h` and width `w`. */
  predicate IsFrame(f: seq<seq<Color>>, h: nat, w: nat)
  {
    IsGrid(f, h, w) && forall y, x :: 0 <= y < h && 0 <= x < w ==> IsByteColor(f[y][x])
  }

  /** An 8-bit single-channel image of height `h` and width `w`. */
  predicate IsGray(g: seq<seq<int>>, h: nat, w: nat)
  {
    IsGrid(g, h, w) && forall y, x :: 0 <= y < h && 0 <= x < w ==> IsByte(g[y][x])
  }

  /** Python's `int()` on a float: truncation toward zero. */
  function Trunc(v: real): (n: int)
    ensures 0.0 <= v ==> 0 <= n && n as real <= v < n as real + 1.0
    ensures v <= 0.0 ==> n <= 0 && n as real - 1.0 < v <= n as real
  {
    if v >= 0.0 then v.Floor else -((-v).Floor)
  }

  /** Python's `sum` over a list of integers. */
  function Sum(s: seq<int>): int
  {
    if s == [] then 0 else s[0] + Sum(s[1..])
  }

  function Max(a: int, b: int): int { if a >= b then a else b }

  function Min(a: int, b: int): int { if a <= b then a else b }

  /** `np.clip(c * gain, 0, 255).astype(int)` on one channel, in exact arithmetic. */
  function ClipGain(c: int, gain: real): (r: int)
    ensures IsByte(r)
    ensures IsByte(c) && 1.0 <= gain ==> c <= r
  {
    var v := c as real * gain;
    assert IsByte(c) && 1.0 <= gain ==> c as real <= v by {
      if IsByte(c) && 1.0 <= gain {
        assert c as real * (gain - 1.0) >= 0.0;
      }
    }
    Trunc(if v < 0.0 then 0.0 else if v > 255.0 then 255.0 else v)
  }

  /** The x1.2 gain of the dots effect: brighter or equal, saturating exactly from 213 on. */
  function Vivid(c: int): (r: int)
    requires IsByte(c)
    ensures IsByte(r) && c <= r
    ensures r == 255 <==> c >= 213
    ensures c == 0 ==> r == 0
  {
    ClipGain(c, 1.2)
  }

  /** The x1.5 gain of the lines effect: brighter or equal, saturating exactly from 170 on. */
  function Brighten(c: int): (r: int)
    requires IsByte(c)
    ensures IsByte(r) && c <= r
    ensures r == 255 <==> c >= 170
    ensures c == 0 ==> r == 0
  {
    ClipGain(c, 1.5)
  }

  function VividColor(c: Color): (r: Color)
    requires IsByteColor(c)
    ensures IsByteColor(r)
    ensures c.b <= r.b && c.g <= r.g && c.r <= r.r
  {
    Color(Vivid(c.b), Vivid(c.g), Vivid(c.r))
  }

  function BrightenColor(c: Color): (r: Color)
    requires IsByteColor(c)
    ensures IsByteColor(r)
    ensures c.b <= r.b && c.g <= r.g && c.r <= r.r
    ensures c == Black <==> r == Black
  {
    Color(Brighten(c.b), Brighten(c.g), Brighten(c.r))
  }
}
