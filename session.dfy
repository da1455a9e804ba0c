/** The image store of the application object: the buffer as loaded and the buffer
    currently shown, and the handlers that set, replace and reset them. */
module Session {
  import opened Pixels
  import opened Noise

  /** The pixels of a buffer as a value, row by row. */
  ghost function Contents(a: array2<Pixel>): (g: Grid)
    reads a
    ensures IsRect(g, a.Length0, a.Length1)
  {
    seq(a.Length0, i requires 0 <= i < a.Length0 reads a =>
      seq(a.Length1, j requires 0 <= j < a.Length1 reads a => a[i, j]))
  }

  /** A buffer holding `g` pixel for pixel has `g` as its contents. */
  lemma ContentsFromPixels(a: array2<Pixel>, g: Grid)
    requires IsRect(g, a.Length0, a.Length1)
    requires forall i, j :: 0 <= i < a.Length0 && 0 <= j < a.Length1 ==> a[i, j] == g[i][j]
    ensures Contents(a) == g
  {
    var c := Contents(a);
    forall i | 0 <= i < a.Length0
      ensures c[i] == g[i]
    {
    }
  }

  /** The loop of `add_noise` over the copied buffer `img`: `for _ in range(n)` takes the
      next drawn coordinate and writes 255 into that pixel for salt or both, then 0 for
      pepper or both. */
  method Scatter(img: array2<Pixel>, kind: NoiseKind, n: int, coords: seq<Coord>)
    requires |coords| == Draws(n) && Inside(coords, Contents(img))
    modifies img
    ensures Contents(img) == Apply(old(Contents(img)), kind, coords)
  {
    var h, w := img.Length0, img.Length1;
    ghost var g0 := Contents(img);
    var t := 0;
    while t < n
      invariant 0 <= t <= Draws(n)
      invariant forall i, j :: 0 <= i < h && 0 <= j < w ==>
        img[i, j] == if (i, j) in coords[..t] then Hit(kind, g0[i][j]) else g0[i][j]
    {
      var (x, y) := coords[t];
      ghost var before := img[x, y];
      if Salty(kind) {
        img[x, y] := Fill(img[x, y], 255);
      }
      if Peppery(kind) {
        img[x, y] := Fill(img[x, y], 0);
      }
      assert img[x, y] == Hit(kind, before);
      HitIdempotent(kind, g0[x][y]);
      assert coords[..t + 1] == coords[..t] + [coords[t]];
      t := t + 1;
    }
    assert coords[..t] == coords;
    var g1 := Apply(g0, kind, coords);
    forall i, j | 0 <= i < h && 0 <= j < w
      ensures img[i, j] == g1[i][j]
    {
      ApplyAt(g0, kind, coords, i, j);
    }
    ContentsFromPixels(img, g1);
  }

  /** What the open-file dialog and the decoder hand to the load handler: no path
      (the dialog was cancelled), a path the decoder cannot read, or a decoded
      buffer in the decoder's BGR channel order. */
  datatype Picked = NoPath | Unreadable | Decoded(buf: array2<Pixel>)

  /** How a load attempt ended: nothing happened, the error box was shown, or the image was taken. */
  datatype LoadStatus = Cancelled | CannotLoad | Loaded

  class ImageSession {
    /** `original_cv`: the buffer as loaded, in RGB order; null before the first load. */
    var original: array2?<Pixel>
    /** `current_cv`: the buffer shown and saved; null before the first load. */
    var current: array2?<Pixel>

    /** Both buffers are set together, and they are two distinct buffers, so that
        writing into the current one can never reach the original. */
    ghost predicate Valid()
      reads this
    {
      (original == null <==> current == null) &&
      (original != null ==> original != current)
    }

    /** `self.original_cv is not None`. */
    predicate HasImage()
      reads this
    {
      original != null
    }

    /** `__init__`: no image yet. */
    constructor ()
      ensures Valid() && !HasImage()
      ensures original == null && current == null
    {
      original := null;
      current := null;
    }

    /** `browse_image`: with no path nothing happens; an unreadable file leaves both
        buffers as they were; a decoded buffer, converted from BGR to RGB, becomes the
        original, and the current buffer becomes a separate copy of it. */
    method Load(picked: Picked) returns (status: LoadStatus)
      requires Valid()
      requires picked.Decoded? ==>
        forall i, j :: 0 <= i < picked.buf.Length0 && 0 <= j < picked.buf.Length1 ==> |picked.buf[i, j]| == 3
      modifies this
      ensures Valid()
      ensures status == match picked
        case NoPath => Cancelled
        case Unreadable => CannotLoad
        case Decoded(_) => Loaded
      ensures status != Loaded ==> original == old(original) && current == old(current)
      ensures status == Loaded ==>
        original != null && current != null && fresh(original) && fresh(current) &&
        IsRect(Contents(original), picked.buf.Length0, picked.buf.Length1) &&
        (forall i, j :: 0 <= i < picked.buf.Length0 && 0 <= j < picked.buf.Length1 ==>
           Contents(original)[i][j] == SwapRedBlue(picked.buf[i, j])) &&
        Contents(current) == Contents(original)
    {
      match picked
      case NoPath =>
        status := Cancelled;
      case Unreadable =>
        status := CannotLoad;
      case Decoded(d) =>
        var h, w := d.Length0, d.Length1;
        var rgb := new Pixel[h, w]((i, j) requires 0 <= i < h && 0 <= j < w && |d[i, j]| == 3 reads d =>
          SwapRedBlue(d[i, j]));
        var copy := new Pixel[h, w]((i, j) requires 0 <= i < h && 0 <= j < w reads rgb => rgb[i, j]);
        original, current := rgb, copy;
        status := Loaded;
        assert forall i :: 0 <= i < h ==> Contents(current)[i] == Contents(original)[i];
    }

    /** `reset_image`: with an image loaded, the current buffer becomes a fresh copy of the
        original, whatever operations ran since the load; without one nothing happens. */
    method Reset()
      requires Valid()
      modifies this
      ensures Valid()
      ensures original == old(original)
      ensures original != null ==> Contents(original) == old(Contents(original))
      ensures original == null ==> current == old(current)
      ensures original != null ==> current != null && fresh(current) && Contents(current) == Contents(original)
    {
      if original != null {
        var o := original;
        var h, w := o.Length0, o.Length1;
        current := new Pixel[h, w]((i, j) requires 0 <= i < h && 0 <= j < w reads o => o[i, j]);
        assert forall i :: 0 <= i < h ==> Contents(current)[i] == Contents(original)[i];
      }
    }

    /** `add_noise`: copy the current buffer, draw `n = int(h * w * percent)` coordinates
        (supplied here as `coords`, in the order the generator returns them), write salt
        and/or pepper into each drawn pixel of the copy, and make the copy current.
        The original buffer is never written. Without an image, `.copy()` on None aborts
        the handler before anything changes: `ok` is false and the state is unchanged. */
    method AddNoise(kind: NoiseKind, percent: real, coords: seq<Coord>) returns (ok: bool)
      requires Valid()
      requires current != null ==>
        |coords| == Draws(NoiseCount(current.Length0, current.Length1, percent)) &&
        Inside(coords, Contents(current))
      modifies this
      ensures Valid()
      ensures ok == old(HasImage())
      ensures original == old(original)
      ensures original != null ==> Contents(original) == old(Contents(original))
      ensures !ok ==> current == old(current)
      ensures ok ==> (current != null && fresh(current) &&
                      Contents(current) == Apply(old(Contents(current)), kind, coords))
    {
      if current == null {
        return false;
      }
      var src := current;
      var h, w := src.Length0, src.Length1;
      var img := new Pixel[h, w]((i, j) requires 0 <= i < h && 0 <= j < w reads src => src[i, j]);
      ContentsFromPixels(img, Contents(src));
      var n := NoiseCount(h, w, percent);
      Scatter(img, kind, n, coords);
      current := img;
      ok := true;
    }

    /** The last step of every filter, edge and enhancement handler: the single-channel
        result `gray` (computed by the image library from the current buffer, and already
        clipped to bytes where the handler clips) is replicated into three equal channels
        and becomes the current buffer; the original is not touched. Without an image,
        the library call on None aborts the handler and nothing changes. */
    method StoreGray(gray: array2<Byte>) returns (ok: bool)
      requires Valid()
      modifies this
      ensures Valid()
      ensures ok == old(HasImage())
      ensures original == old(original)
      ensures original != null ==> Contents(original) == old(Contents(original))
      ensures !ok ==> current == old(current)
      ensures ok ==> (current != null && fresh(current) &&
                      IsRect(Contents(current), gray.Length0, gray.Length1) &&
                      forall i, j :: 0 <= i < gray.Length0 && 0 <= j < gray.Length1 ==>
                        Contents(current)[i][j] == GrayToRgb(gray[i, j]))
    {
      if current == null {
        return false;
      }
      var h, w := gray.Length0, gray.Length1;
      current := new Pixel[h, w]((i, j) requires 0 <= i < h && 0 <= j < w reads gray => GrayToRgb(gray[i, j]));
      ok := true;
    }
  }
}
