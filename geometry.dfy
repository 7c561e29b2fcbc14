/** Fit-and-centre geometry of the frame compositor: how one page is scaled
    into a region of the canvas and where it is pasted. The converter writes
    this arithmetic out three times (left book page, right book page, single
    page); here it is defined once and applied per region.

    The converter compares aspect ratios and scales with Python floats.
    This model uses exact integer arithmetic instead: `w/h > rw/rh` is
    `w * rh > rw * h`, `int(rw / (w/h))` is `(rw * h) / w` and
    `int(rh * (w/h))` is `(rh * w) / h`, all on naturals. */
module Geometry {

  /** Width and height of a page image or of a region, in pixels. */
  datatype Size = Size(w: nat, h: nat)

  /** A rectangle on the canvas: top-left corner and extent. */
  datatype Rect = Rect(x: nat, y: nat, w: nat, h: nat)

  /** Rasterised pages always have a positive width and height. */
  predicate ValidPage(page: Size) {
    page.w > 0 && page.h > 0
  }

  /** The page is relatively wider than the region (`page aspect > region aspect`). */
  predicate WiderThan(page: Size, region: Size) {
    page.w * region.h > region.w * page.h
  }

  /** Horizontal gap between the two pages of a book spread, in canvas pixels. */
  const GAP: nat := 20

  lemma FloorDivBelow(a: nat, b: nat, c: nat)
    requires b > 0 && a < b * c
    ensures a / b < c
  {
  }

  lemma FloorDivAtMost(a: nat, b: nat, c: nat)
    requires b > 0 && a <= b * c
    ensures a / b <= c
  {
  }

  lemma FloorDivBounds(a: nat, b: nat)
    requires b > 0
    ensures (a / b) * b <= a < (a / b + 1) * b
  {
  }

  lemma MulMonotone(x: nat, y: nat, b: nat)
    requires x <= y
    ensures x * b <= y * b
  {
  }

  lemma FloorDivAtLeast(a: nat, b: nat, c: nat)
    requires b > 0 && c * b <= a
    ensures c <= a / b
  {
    var q := a / b;
    assert a < (q + 1) * b;
    if q + 1 <= c {
      MulMonotone(q + 1, c, b);
      assert false;
    }
  }

  /** `int(length * num / den)`: a length scaled by a ratio and truncated. */
  function Scale(length: nat, num: nat, den: nat): nat
    requires den > 0
  {
    (length * num) / den
  }

  /** The scaled size of `page` inside `region`: the page touches the region
      on its binding axis, keeps its aspect ratio up to truncation of the
      other axis, and never overflows the region. */
  function Fit(page: Size, region: Size): (r: Size)
    requires ValidPage(page)
    ensures r.w <= region.w && r.h <= region.h
    ensures WiderThan(page, region) ==> r.w == region.w
    ensures !WiderThan(page, region) ==> r.h == region.h
    ensures WiderThan(page, region) ==> r.h * page.w <= r.w * page.h < (r.h + 1) * page.w
    ensures !WiderThan(page, region) ==> r.w * page.h <= r.h * page.w < (r.w + 1) * page.h
  {
    if WiderThan(page, region) then
      WidthBoundScale(page, region);
      Size(region.w, Scale(region.w, page.h, page.w))
    else
      HeightBoundScale(page, region);
      Size(Scale(region.h, page.w, page.h), region.h)
  }

  /** A relatively wider page scaled to the region's width: the truncated
      height fits and is within one pixel of the page's proportion. */
  lemma WidthBoundScale(page: Size, region: Size)
    requires ValidPage(page) && WiderThan(page, region)
    ensures var h := Scale(region.w, page.h, page.w);
            h <= region.h && h * page.w <= region.w * page.h < (h + 1) * page.w
  {
    FloorDivBelow(region.w * page.h, page.w, region.h);
    FloorDivBounds(region.w * page.h, page.w);
  }

  /** A page that is not relatively wider, scaled to the region's height: the
      truncated width fits and is within one pixel of the page's proportion. */
  lemma HeightBoundScale(page: Size, region: Size)
    requires ValidPage(page) && !WiderThan(page, region)
    ensures var w := Scale(region.h, page.w, page.h);
            w <= region.w && w * page.h <= region.h * page.w < (w + 1) * page.h
  {
    FloorDivAtMost(region.h * page.w, page.h, region.w);
    FloorDivBounds(region.h * page.w, page.h);
  }

  /** Among all boxes inside the region with exactly the page's aspect ratio,
      none is larger than the fitted size on either axis. */
  lemma FitIsLargest(page: Size, region: Size, s: Size)
    requires ValidPage(page)
    requires s.w <= region.w && s.h <= region.h
    requires s.w * page.h == s.h * page.w
    ensures s.w <= Fit(page, region).w && s.h <= Fit(page, region).h
  {
    var r := Fit(page, region);
    if WiderThan(page, region) {
      MulMonotone(s.w, region.w, page.h);
      FloorDivAtLeast(region.w * page.h, page.w, s.h);
    } else {
      MulMonotone(s.h, region.h, page.w);
      FloorDivAtLeast(region.h * page.w, page.h, s.w);
    }
  }

  /** Floor-division centring offset of `scaled` pixels in `region` pixels:
      the scaled extent stays inside, and the far margin is the near margin
      or one pixel more. */
  function Offset(region: nat, scaled: nat): (off: nat)
    requires scaled <= region
    ensures off + scaled <= region
    ensures 0 <= (region - scaled - off) - off <= 1
  {
    (region - scaled) / 2
  }

  /** Where `page` lands when fitted and centred in the region whose left
      edge is at column `originX` and that spans the full canvas height. */
  function PlaceInRegion(page: Size, originX: nat, region: Size): (r: Rect)
    requires ValidPage(page)
    ensures Size(r.w, r.h) == Fit(page, region)
    ensures originX <= r.x && r.x + r.w <= originX + region.w
    ensures r.y + r.h <= region.h
    ensures 0 <= (originX + region.w - (r.x + r.w)) - (r.x - originX) <= 1
    ensures 0 <= (region.h - (r.y + r.h)) - r.y <= 1
  {
    var s := Fit(page, region);
    Rect(originX + Offset(region.w, s.w), Offset(region.h, s.h), s.w, s.h)
  }

  /** Book mode: each page gets `(width - GAP) // 2` columns and the full
      height; the two regions and the gap fill the canvas width except for
      at most one leftover column. */
  function BookRegion(width: nat, height: nat): (region: Size)
    requires width >= GAP
    ensures region.h == height
    ensures 2 * region.w + GAP <= width <= 2 * region.w + GAP + 1
  {
    Size((width - GAP) / 2, height)
  }

  /** Column at which the right-hand book region starts: GAP columns after
      the left region ends. `x - GAP` is the book-region width, so the two
      regions and the gap fill the canvas except for at most one column. */
  function RightRegionX(width: nat): (x: nat)
    requires width >= GAP
    ensures GAP <= x && 2 * (x - GAP) + GAP <= width <= 2 * (x - GAP) + GAP + 1
  {
    (width - GAP) / 2 + GAP
  }

  /** The left page of a spread lies in columns `[0, page_width)`, the right
      page in `[page_width + GAP, 2 * page_width + GAP]`, which ends inside
      the canvas; at least GAP columns separate them. */
  lemma BookPagesSeparated(width: nat, height: nat, left: Size, right: Size)
    requires width >= GAP && ValidPage(left) && ValidPage(right)
    ensures var region := BookRegion(width, height);
            var l := PlaceInRegion(left, 0, region);
            var r := PlaceInRegion(right, RightRegionX(width), region);
            l.x + l.w <= region.w &&
            region.w + GAP <= r.x && r.x + r.w <= 2 * region.w + GAP <= width &&
            l.x + l.w + GAP <= r.x
  {
  }

  /** A 100x200 page on a 400x300 canvas is height-bound: 150x300 at (125, 0). */
  lemma SinglePageExample()
    ensures PlaceInRegion(Size(100, 200), 0, Size(400, 300)) == Rect(125, 0, 150, 300)
  {
  }

  /** On a 400x300 canvas each book region is 190x300, and the right one starts at column 210. */
  lemma BookRegionExample()
    ensures BookRegion(400, 300) == Size(190, 300) && RightRegionX(400) == 210
  {
  }
}
