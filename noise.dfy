/** Salt-and-pepper noise as a value-level reference: the draws are applied to a
    pixel grid one after another, exactly in the order the loop of `add_noise` writes them. */
module Noise {
  import opened Pixels

  /** The three noise buttons: "salt", "pepper" and "both". */
  datatype NoiseKind = Salt | Pepper | Both

  /** `noise_type in ["salt", "both"]`: the loop writes 255. */
  predicate Salty(kind: NoiseKind)
  {
    kind == Salt || kind == Both
  }

  /** `noise_type in ["pepper", "both"]`: the loop writes 0. */
  predicate Peppery(kind: NoiseKind)
  {
    kind == Pepper || kind == Both
  }

  /** A drawn coordinate: (row, column). */
  type Coord = (int, int)

  /** What the two conditional writes of one iteration leave in the drawn pixel:
      the salt write first, then the pepper write. */
  function Hit(kind: NoiseKind, p: Pixel): (q: Pixel)
    ensures |q| == |p|
  {
    var salted := if Salty(kind) then Fill(p, 255) else p;
    if Peppery(kind) then Fill(salted, 0) else salted
  }

  /** Salt turns every channel of a drawn pixel into 255; pepper and "both" turn
      every channel into 0, because in "both" the pepper write comes second. */
  lemma {:induction false} HitValue(kind: NoiseKind, p: Pixel)
    ensures kind == Salt ==> Uniform(Hit(kind, p), 255)
    ensures kind != Salt ==> Uniform(Hit(kind, p), 0)
    ensures Hit(Both, p) == Hit(Pepper, p)
  {
    assert Fill(Fill(p, 255), 0) == Fill(p, 0);
  }

  /** Drawing the same pixel again changes nothing more. */
  lemma {:induction false} HitIdempotent(kind: NoiseKind, p: Pixel)
    ensures Hit(kind, Hit(kind, p)) == Hit(kind, p)
  {
    HitValue(kind, p);
    HitValue(kind, Hit(kind, p));
  }

  /** `n = int(h * w * percent)`: Python's int() truncates toward zero.
      The percentage is taken as an exact real (binary floating-point rounding is not modelled). */
  function NoiseCount(h: nat, w: nat, percent: real): int
  {
    var x := (h * w) as real * percent;
    if x >= 0.0 then x.Floor else -((-x).Floor)
  }

  /** `range(n)` runs `n` times, and not at all when `n` is negative. */
  function Draws(n: int): nat
  {
    if n < 0 then 0 else n
  }

  /** The product of two non-negative reals is non-negative (a step the solver's
      non-linear arithmetic does not find inside a larger proof). */
  lemma MulNonNegative(a: real, b: real)
    requires a >= 0.0 && b >= 0.0
    ensures a * b >= 0.0
  {
  }

  /** A percentage in [0, 1] draws between 0 and h*w coordinates, and 1 draws exactly h*w;
      a zero or negative percentage draws none. */
  lemma NoiseCountBounds(h: nat, w: nat, percent: real)
    ensures 0.0 <= percent <= 1.0 ==> 0 <= NoiseCount(h, w, percent) <= h * w
    ensures percent == 1.0 ==> NoiseCount(h, w, percent) == h * w
    ensures percent <= 0.0 ==> Draws(NoiseCount(h, w, percent)) == 0
  {
    var x := (h * w) as real * percent;
    if 0.0 <= percent <= 1.0 {
      var hw := (h * w) as real;
      MulNonNegative(hw, percent);
      MulNonNegative(hw, 1.0 - percent);
      assert hw - x == hw * (1.0 - percent);
    }
    if percent <= 0.0 {
      assert x <= 0.0;
    }
  }

  /** Every draw names a pixel of `g`: `np.random.randint(0, h)` and `np.random.randint(0, w)`
      return a row in [0, h) and a column in [0, w). */
  predicate Inside(coords: seq<Coord>, g: Grid)
  {
    forall k :: 0 <= k < |coords| ==> 0 <= coords[k].0 < |g| && 0 <= coords[k].1 < |g[coords[k].0]|
  }

  /** `g` and `r` have the same rows of the same lengths. */
  predicate SameShape(g: Grid, r: Grid)
  {
    |r| == |g| && forall i :: 0 <= i < |g| ==> |r[i]| == |g[i]|
  }

  /** The grid after the draws in `coords`, applied in order, each drawn pixel
      replaced by what one loop iteration writes into it. */
  function Apply(g: Grid, kind: NoiseKind, coords: seq<Coord>): (r: Grid)
    requires Inside(coords, g)
    ensures SameShape(g, r)
  {
    if coords == [] then g
    else
      var prev := Apply(g, kind, coords[..|coords| - 1]);
      var (x, y) := coords[|coords| - 1];
      prev[x := prev[x][y := Hit(kind, prev[x][y])]]
  }

  /** Closed form of the noise loop: a pixel that was drawn at least once holds one
      iteration's write applied to its ORIGINAL value, and a pixel never drawn is unchanged. */
  lemma {:induction false} ApplyAt(g: Grid, kind: NoiseKind, coords: seq<Coord>, i: int, j: int)
    requires Inside(coords, g)
    requires 0 <= i < |g| && 0 <= j < |g[i]|
    ensures Apply(g, kind, coords)[i][j] == if (i, j) in coords then Hit(kind, g[i][j]) else g[i][j]
  {
    if coords != [] {
      var pre := coords[..|coords| - 1];
      var last := coords[|coords| - 1];
      assert Inside(pre, g);
      assert coords == pre + [last];
      assert (i, j) in coords <==> (i, j) in pre || (i, j) == last;
      ApplyAt(g, kind, pre, i, j);
      if (i, j) == last && (i, j) in pre {
        HitIdempotent(kind, g[i][j]);
      }
    }
  }

  /** When `n = int(h * w * percent)` is 0 or less, `range(n)` draws nothing and the grid is
      unchanged; this holds for every percentage <= 0, and for a positive one too small for
      the image (0.5% of a 10x10 image). */
  lemma NoDrawsNoChange(g: Grid, kind: NoiseKind, h: nat, w: nat, percent: real, coords: seq<Coord>)
    requires IsRect(g, h, w) && Inside(coords, g)
    requires |coords| == Draws(NoiseCount(h, w, percent))
    requires NoiseCount(h, w, percent) <= 0
    ensures Apply(g, kind, coords) == g
  {
    assert coords == [];
  }

  /** A zero or negative percentage always falls under `NoDrawsNoChange`, and so does
      0.5% of a 10x10 image. */
  lemma {:induction false} NoDrawsCases(h: nat, w: nat, percent: real)
    ensures percent <= 0.0 ==> NoiseCount(h, w, percent) <= 0
    ensures NoiseCount(10, 10, 0.005) == 0
  {
    NoiseCountBounds(h, w, percent);
    if percent <= 0.0 {
      var x := (h * w) as real * percent;
      MulNonNegative((h * w) as real, -percent);
      assert x <= 0.0;
    }
    assert (10 * 10) as real * 0.005 == 0.5;
  }

  /** Salt leaves every drawn pixel at 255 in every channel, pepper and "both" at 0. */
  lemma {:induction false} DrawnPixels(g: Grid, kind: NoiseKind, coords: seq<Coord>, k: int)
    requires Inside(coords, g) && 0 <= k < |coords|
    ensures kind == Salt ==> Uniform(Apply(g, kind, coords)[coords[k].0][coords[k].1], 255)
    ensures kind != Salt ==> Uniform(Apply(g, kind, coords)[coords[k].0][coords[k].1], 0)
  {
    var (x, y) := coords[k];
    ApplyAt(g, kind, coords, x, y);
    HitValue(kind, g[x][y]);
  }

  /** For the same draws, "both" produces exactly the grid "pepper" produces. */
  lemma {:induction false} BothIsPepper(g: Grid, coords: seq<Coord>)
    requires Inside(coords, g)
    ensures Apply(g, Both, coords) == Apply(g, Pepper, coords)
  {
    var b := Apply(g, Both, coords);
    var p := Apply(g, Pepper, coords);
    forall i | 0 <= i < |g|
      ensures b[i] == p[i]
    {
      forall j | 0 <= j < |g[i]|
        ensures b[i][j] == p[i][j]
      {
        ApplyAt(g, Both, coords, i, j);
        ApplyAt(g, Pepper, coords, i, j);
        HitValue(Both, g[i][j]);
      }
    }
  }

  /** The positions at which two grids of the same shape differ. */
  function Changed(g: Grid, r: Grid): set<Coord>
    requires SameShape(g, r)
  {
    set i, j | 0 <= i < |g| && 0 <= j < |g[i]| && r[i][j] != g[i][j] :: (i, j)
  }

  /** The distinct coordinates drawn. */
  function DrawnSet(coords: seq<Coord>): set<Coord>
  {
    set k | 0 <= k < |coords| :: coords[k]
  }

  /** Repeated draws make the set of distinct coordinates no larger than the number of draws. */
  lemma {:induction false} DrawnSetSize(coords: seq<Coord>)
    ensures |DrawnSet(coords)| <= |coords|
  {
    if coords != [] {
      var pre := coords[..|coords| - 1];
      DrawnSetSize(pre);
      assert DrawnSet(coords) == DrawnSet(pre) + {coords[|coords| - 1]};
    }
  }

  lemma {:induction false} SubsetSize(a: set<Coord>, b: set<Coord>)
    requires a <= b
    ensures |a| <= |b|
  {
    if a != {} {
      var e :| e in a;
      SubsetSize(a - {e}, b - {e});
    }
  }

  /** Noise changes only drawn pixels, so at most `|coords|` (that is, at most n) distinct
      pixels differ from the buffer before the call. */
  lemma ChangedAtMostDraws(g: Grid, kind: NoiseKind, coords: seq<Coord>)
    requires Inside(coords, g)
    ensures Changed(g, Apply(g, kind, coords)) <= DrawnSet(coords)
    ensures |Changed(g, Apply(g, kind, coords))| <= |coords|
  {
    var r := Apply(g, kind, coords);
    forall c | c in Changed(g, r)
      ensures c in DrawnSet(coords)
    {
      var (i, j) := c;
      ApplyAt(g, kind, coords, i, j);
      var k :| 0 <= k < |coords| && coords[k] == c;
    }
    SubsetSize(Changed(g, r), DrawnSet(coords));
    DrawnSetSize(coords);
  }

  /** A buffer whose samples are all 0 or 255 keeps that property under any noise,
      and with pepper or both at least one pixel is black as soon as one coordinate is drawn. */
  lemma {:induction false} ExtremesStayExtreme(g: Grid, kind: NoiseKind, coords: seq<Coord>)
    requires Inside(coords, g)
    requires forall i, j, c :: 0 <= i < |g| && 0 <= j < |g[i]| && 0 <= c < |g[i][j]| ==> g[i][j][c] in {0, 255}
    ensures var r := Apply(g, kind, coords);
      forall i, j, c :: 0 <= i < |r| && 0 <= j < |r[i]| && 0 <= c < |r[i][j]| ==> r[i][j][c] in {0, 255}
    ensures kind != Salt && coords != [] ==> Uniform(Apply(g, kind, coords)[coords[0].0][coords[0].1], 0)
  {
    var r := Apply(g, kind, coords);
    forall i, j, c | 0 <= i < |r| && 0 <= j < |r[i]| && 0 <= c < |r[i][j]|
      ensures r[i][j][c] in {0, 255}
    {
      ApplyAt(g, kind, coords, i, j);
      HitValue(kind, g[i][j]);
    }
    if kind != Salt && coords != [] {
      DrawnPixels(g, kind, coords, 0);
    }
  }
}
