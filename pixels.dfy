/** Pixel samples and the byte-range clip applied to filter responses. */
module Pixels {

  /** One 8-bit unsigned sample (numpy's uint8). */
  type Byte = x: int | 0 <= x < 256

  /** One pixel: a sample per channel (one for a grayscale buffer, three for RGB). */
  type Pixel = seq<Byte>

  /** A pixel buffer as rows of pixels, indexed [row][column]. */
  type Grid = seq<seq<Pixel>>

  /** Every row of `g` holds `w` pixels, and there are `h` rows. */
  predicate IsRect(g: Grid, h: nat, w: nat)
  {
    |g| == h && forall i :: 0 <= i < h ==> |g[i]| == w
  }

  /** `img[x, y] = v` on a pixel with any number of channels: numpy broadcasts the
      scalar into every channel, so the pixel keeps its channel count. */
  function Fill(p: Pixel, v: Byte): (q: Pixel)
    ensures |q| == |p|
    ensures forall c :: 0 <= c < |q| ==> q[c] == v
  {
    seq(|p|, _ => v)
  }

  /** The pixel is `v` in every channel. */
  predicate Uniform(p: Pixel, v: Byte)
  {
    forall c :: 0 <= c < |p| ==> p[c] == v
  }

  /** Distance between two integers, used to say what "nearest" means. */
  function Dist(a: int, b: int): nat
  {
    if a <= b then b - a else a - b
  }

  /** `np.clip(x, 0, 255)` on an integer response: the byte nearest to `x`,
      and `x` itself exactly when `x` already is a byte. */
  function Clip(x: int): (r: Byte)
    ensures r == x <==> 0 <= x < 256
    ensures forall b: Byte :: Dist(x, r) <= Dist(x, b)
  {
    if x < 0 then 0 else if x > 255 then 255 else x
  }

  /** `cv2.cvtColor(res, cv2.COLOR_GRAY2RGB)`: the gray sample replicated into three channels. */
  function GrayToRgb(v: Byte): (p: Pixel)
    ensures |p| == 3 && Uniform(p, v)
  {
    [v, v, v]
  }

  /** `cv2.cvtColor(img, cv2.COLOR_BGR2RGB)` on one 3-channel pixel: the first and
      third channels trade places and the middle one stays. */
  function SwapRedBlue(p: Pixel): (q: Pixel)
    requires |p| == 3
    ensures |q| == 3
  {
    [p[2], p[1], p[0]]
  }

  /** Swapping again undoes the swap: the round trip between loading (BGR to RGB)
      and saving (RGB to BGR) gives back the decoded pixel. */
  lemma SwapRedBlueRoundTrip(p: Pixel)
    requires |p| == 3
    ensures SwapRedBlue(SwapRedBlue(p)) == p
  {
  }
}
