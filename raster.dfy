/** The canvas the compositor paints: `Image.new('RGB', (width, height),
    (0, 0, 0))`, `paste` of a resized page at an offset, and saving the
    result. Pixel colours are kept symbolic: a canvas pixel is either the
    black background or "pixel (u, v) of page p resampled to w x h". What
    the resampling filter computes for that pixel is not modelled. */
module Raster {
  import opened Geometry

  datatype Pixel = Black | Sample(page: nat, w: nat, h: nat, u: nat, v: nat)

  /** Page number `page` after `resize((w, h))`. */
  datatype Resized = Resized(page: nat, w: nat, h: nat) {
    function At(u: nat, v: nat): Pixel {
      Sample(page, w, h, u, v)
    }
  }

  predicate Covers(r: Rect, x: nat, y: nat) {
    r.x <= x < r.x + r.w && r.y <= y < r.y + r.h
  }

  /** A fixed-size RGB canvas; `pixels[y, x]` is row `y`, column `x`. */
  class Canvas {
    const width: nat
    const height: nat
    const pixels: array2<Pixel>

    ghost predicate Valid()
      reads this
    {
      pixels.Length0 == height && pixels.Length1 == width
    }

    /** A new canvas filled with the black background. */
    constructor (width: nat, height: nat)
      ensures Valid() && fresh(pixels)
      ensures this.width == width && this.height == height
      ensures forall y, x :: 0 <= y < height && 0 <= x < width ==> pixels[y, x] == Black
    {
      this.width := width;
      this.height := height;
      pixels := new Pixel[height, width]((y, x) => Black);
    }

    /** Paste `src` with its top-left corner at `(x, y)`: every canvas pixel
        the image covers takes the image's pixel, every other pixel keeps
        its value; parts of the image past the canvas edge are dropped. */
    method Paste(src: Resized, x: nat, y: nat)
      requires Valid()
      modifies pixels
      ensures Valid()
      ensures forall j, i :: 0 <= j < height && 0 <= i < width ==>
        pixels[j, i] == if Covers(Rect(x, y, src.w, src.h), i, j) then src.At(i - x, j - y) else old(pixels[j, i])
    {
      var r := Rect(x, y, src.w, src.h);
      var rowEnd := if y + src.h < height then y + src.h else height;
      var colEnd := if x + src.w < width then x + src.w else width;
      var j := y;
      while j < rowEnd
        invariant y <= j
        invariant forall jj, ii :: 0 <= jj < height && 0 <= ii < width ==>
          pixels[jj, ii] == if jj < j && Covers(r, ii, jj) then src.At(ii - x, jj - y) else old(pixels[jj, ii])
      {
        var i := x;
        while i < colEnd
          invariant x <= i
          invariant forall jj, ii :: 0 <= jj < height && 0 <= ii < width ==>
            pixels[jj, ii] == if (jj < j || (jj == j && ii < i)) && Covers(r, ii, jj)
                              then src.At(ii - x, jj - y) else old(pixels[jj, ii])
        {
          pixels[j, i] := src.At(i - x, j - y);
          i := i + 1;
        }
        j := j + 1;
      }
    }

    /** The image `save` writes: the canvas as a list of rows. */
    function Rows(): (rows: seq<seq<Pixel>>)
      requires Valid()
      reads this, pixels
      ensures |rows| == height
      ensures forall j :: 0 <= j < height ==> |rows[j]| == width
      ensures forall j, i :: 0 <= j < height && 0 <= i < width ==> rows[j][i] == pixels[j, i]
    {
      seq(height, j requires 0 <= j < height reads pixels, this =>
        seq(width, i requires 0 <= i < width reads pixels, this => pixels[j, i]))
    }
  }
}
