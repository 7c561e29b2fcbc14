/** The frame-composition loops of the converter: look up the canvas size,
    choose the layout, and for every output frame paint a black canvas,
    paste one (single) or two (book) fitted pages on it, save it as
    `page_%04d.png` and record its index. */
module Compositor {
  import opened Geometry
  import opened Raster
  import Decimal

  datatype Layout = Single | Book

  datatype Option<T> = None | Some(value: T)

  /** Why a conversion produced no frames. */
  datatype Error =
    | NoPages           // the rasteriser returned an empty page list
    | UnknownResolution // the resolution menu text is not a key of the resolution table
    | ZeroSizeResize    // a fitted page has a zero width or height, which the resampler rejects

  datatype Result<T> = Ok(value: T) | Err(error: Error)

  /** One saved frame: the index appended to the list of processed frames,
      the file name it is saved under, and its pixels row by row. */
  datatype Frame = Frame(index: nat, name: string, pixels: seq<seq<Pixel>>)

  /** Page `page` pasted at `rect` (whose extent is the size it was resized to). */
  datatype Placement = Placement(page: nat, rect: Rect) {
    function Source(): Resized {
      Resized(page, rect.w, rect.h)
    }
  }

  /** What goes on one canvas: a left (or only) page, and in book mode maybe a right page. */
  datatype Plan = Plan(left: Placement, right: Option<Placement>)

  const RESOLUTIONS: map<string, Size> := map[
    "720p (1280x720)" := Size(1280, 720),
    "1080p (1920x1080)" := Size(1920, 1080),
    "4K (3840x2160)" := Size(3840, 2160)
  ]

  const BOOK_MODE: string := "Book Mode (2 pages)"

  /** The canvas size for a resolution menu entry; only the three menu
      entries are keys, each a 16:9 canvas wide enough for a book spread. */
  function Resolution(choice: string): (r: Option<Size>)
    ensures r.Some? <==> choice in {"720p (1280x720)", "1080p (1920x1080)", "4K (3840x2160)"}
    ensures r.Some? ==> r.value.w * 9 == r.value.h * 16 && r.value.w >= GAP && r.value.h > 0
  {
    if choice in RESOLUTIONS then Some(RESOLUTIONS[choice]) else None
  }

  predicate EndsWith(s: string, tail: string) {
    |tail| <= |s| && s[|s| - |tail|..] == tail
  }

  /** The text in parentheses that names a canvas size: "(WxH)". */
  function SizeLabel(size: Size): string {
    "(" + Decimal.Digits(size.w) + "x" + Decimal.Digits(size.h) + ")"
  }

  lemma Label720pSize()
    ensures SizeLabel(Size(1280, 720)) == "(1280x720)"
  {
    assert Decimal.Digits(1280) == "1280" by { Decimal.DigitsOfFour(1280); }
    assert Decimal.Digits(720) == "720" by { Decimal.DigitsOfThree(720); }
  }

  lemma Label720p()
    ensures EndsWith("720p (1280x720)", SizeLabel(Size(1280, 720)))
  {
    Label720pSize();
    assert EndsWith("720p (1280x720)", "(1280x720)");
  }

  lemma Label1080pSize()
    ensures SizeLabel(Size(1920, 1080)) == "(1920x1080)"
  {
    assert Decimal.Digits(1920) == "1920" by { Decimal.DigitsOfFour(1920); }
    assert Decimal.Digits(1080) == "1080" by { Decimal.DigitsOfFour(1080); }
  }

  lemma Label1080p()
    ensures EndsWith("1080p (1920x1080)", SizeLabel(Size(1920, 1080)))
  {
    Label1080pSize();
    assert EndsWith("1080p (1920x1080)", "(1920x1080)");
  }

  lemma Label4KSize()
    ensures SizeLabel(Size(3840, 2160)) == "(3840x2160)"
  {
    assert Decimal.Digits(3840) == "3840" by { Decimal.DigitsOfFour(3840); }
    assert Decimal.Digits(2160) == "2160" by { Decimal.DigitsOfFour(2160); }
  }

  lemma Label4K()
    ensures EndsWith("4K (3840x2160)", SizeLabel(Size(3840, 2160)))
  {
    Label4KSize();
    assert EndsWith("4K (3840x2160)", "(3840x2160)");
  }

  /** Every menu entry ends with the canvas size it selects, "(WxH)". */
  lemma ResolutionLabelsNameTheirSize(choice: string)
    requires Resolution(choice).Some?
    ensures EndsWith(choice, SizeLabel(Resolution(choice).value))
  {
    if choice == "720p (1280x720)" {
      Label720p();
    } else if choice == "1080p (1920x1080)" {
      Label1080p();
    } else {
      Label4K();
    }
  }

  /** Book mode is chosen by exactly one menu text; anything else is single-page. */
  function LayoutOf(choice: string): (layout: Layout)
    ensures layout == Book <==> choice == BOOK_MODE
  {
    if choice == BOOK_MODE then Book else Single
  }

  /** One frame per page, or one per pair of pages rounded up. */
  function FrameCount(n: nat, layout: Layout): (count: nat)
    ensures layout == Single ==> count == n
    ensures layout == Book ==> n <= 2 * count <= n + 1
  {
    if layout == Single then n else (n + 1) / 2
  }

  /** `f"page_{k:04d}.png"`: the numeral of `k` padded to four digits (more
      when `k` needs them) between the fixed prefix and suffix. */
  function FrameName(k: nat): (name: string)
    ensures IsFrameName(name) && |name| >= 13
    ensures |name| == 9 + (if |Decimal.Digits(k)| < 4 then 4 else |Decimal.Digits(k)|)
  {
    "page_" + Decimal.ZeroPadded(k, 4) + ".png"
  }

  predicate IsFrameName(name: string) {
    |name| >= 9 && name[..5] == "page_" && name[|name| - 4..] == ".png" &&
    Decimal.AllDigits(name[5..|name| - 4])
  }

  /** The frame number an encoder reads back from a `page_%04d.png` name. */
  function FrameNumber(name: string): nat
    requires IsFrameName(name)
  {
    Decimal.Parse(name[5..|name| - 4])
  }

  /** Reading the number back from a frame's file name gives its index, so
      distinct frames are saved under distinct names. */
  lemma FrameNameRoundTrip(k: nat)
    ensures IsFrameName(FrameName(k)) && FrameNumber(FrameName(k)) == k
  {
    var name := FrameName(k);
    var digits := Decimal.ZeroPadded(k, 4);
    assert name[5..|name| - 4] == digits;
    assert name[..5] == "page_";
    assert name[|name| - 4..] == ".png";
    Decimal.ParseZeroPadded(k, 4);
  }

  predicate AllValid(pages: seq<Size>) {
    forall p :: 0 <= p < |pages| ==> ValidPage(pages[p])
  }

  /** Which pages go where on frame `k`: in single mode page `k` fills the
      whole canvas; in book mode page `2k` goes in the left region and page
      `2k + 1`, when there is one, in the right region. */
  function FramePlan(pages: seq<Size>, layout: Layout, canvas: Size, k: nat): (plan: Plan)
    requires AllValid(pages) && k < FrameCount(|pages|, layout)
    requires layout == Book ==> canvas.w >= GAP
    ensures layout == Single ==>
      plan.left.page == k && plan.right.None? &&
      plan.left.rect.x + plan.left.rect.w <= canvas.w && plan.left.rect.y + plan.left.rect.h <= canvas.h
    ensures layout == Book ==>
      var pw := BookRegion(canvas.w, canvas.h).w;
      plan.left.page == 2 * k && plan.left.rect.x + plan.left.rect.w <= pw &&
      plan.left.rect.y + plan.left.rect.h <= canvas.h &&
      (plan.right.Some? <==> 2 * k + 1 < |pages|) &&
      (plan.right.Some? ==>
        plan.right.value.page == 2 * k + 1 && pw + GAP <= plan.right.value.rect.x &&
        plan.right.value.rect.x + plan.right.value.rect.w <= canvas.w &&
        plan.right.value.rect.y + plan.right.value.rect.h <= canvas.h)
  {
    match layout
    case Single =>
      Plan(Placement(k, PlaceInRegion(pages[k], 0, canvas)), None)
    case Book =>
      var region := BookRegion(canvas.w, canvas.h);
      var left := Placement(2 * k, PlaceInRegion(pages[2 * k], 0, region));
      if 2 * k + 1 < |pages| then
        Plan(left, Some(Placement(2 * k + 1, PlaceInRegion(pages[2 * k + 1], RightRegionX(canvas.w), region))))
      else
        Plan(left, None)
  }

  /** The resampler accepts only positive target sizes. */
  predicate Resizable(plan: Plan) {
    plan.left.rect.w > 0 && plan.left.rect.h > 0 &&
    (plan.right.Some? ==> plan.right.value.rect.w > 0 && plan.right.value.rect.h > 0)
  }

  predicate AllResizable(pages: seq<Size>, layout: Layout, canvas: Size)
    requires AllValid(pages)
    requires layout == Book ==> canvas.w >= GAP
  {
    ResizableUpTo(pages, layout, canvas, FrameCount(|pages|, layout))
  }

  /** Every one of the first `n` frames can be resized. */
  predicate ResizableUpTo(pages: seq<Size>, layout: Layout, canvas: Size, n: nat)
    requires AllValid(pages) && n <= FrameCount(|pages|, layout)
    requires layout == Book ==> canvas.w >= GAP
  {
    forall k :: 0 <= k < n ==> Resizable(FramePlan(pages, layout, canvas, k))
  }

  lemma ResizableStep(pages: seq<Size>, layout: Layout, canvas: Size, n: nat)
    requires AllValid(pages) && n < FrameCount(|pages|, layout)
    requires layout == Book ==> canvas.w >= GAP
    requires ResizableUpTo(pages, layout, canvas, n) && Resizable(FramePlan(pages, layout, canvas, n))
    ensures ResizableUpTo(pages, layout, canvas, n + 1)
  {
  }

  function Pasted(pl: Placement, x: nat, y: nat): Pixel
    requires Covers(pl.rect, x, y)
  {
    pl.Source().At(x - pl.rect.x, y - pl.rect.y)
  }

  /** The canvas pixel at column `x`, row `y` after pasting the left page and
      then the right page on black: the last paste covering it wins. */
  function PixelAt(plan: Plan, x: nat, y: nat): Pixel {
    if plan.right.Some? && Covers(plan.right.value.rect, x, y) then Pasted(plan.right.value, x, y)
    else if Covers(plan.left.rect, x, y) then Pasted(plan.left, x, y)
    else Black
  }

  /** The saved frame: every frame has exactly the canvas's dimensions, and
      each of its pixels is what the pastes leave at that position. */
  function Render(canvas: Size, plan: Plan): (rows: seq<seq<Pixel>>)
    ensures |rows| == canvas.h
    ensures forall y :: 0 <= y < |rows| ==> |rows[y]| == canvas.w
    ensures forall y, x :: 0 <= y < canvas.h && 0 <= x < canvas.w ==> rows[y][x] == PixelAt(plan, x, y)
  {
    seq(canvas.h, y requires 0 <= y < canvas.h =>
      seq(canvas.w, x requires 0 <= x < canvas.w => PixelAt(plan, x, y)))
  }

  function ExpectedFrame(pages: seq<Size>, layout: Layout, canvas: Size, k: nat): Frame
    requires AllValid(pages) && k < FrameCount(|pages|, layout)
    requires layout == Book ==> canvas.w >= GAP
  {
    Frame(k, FrameName(k), Render(canvas, FramePlan(pages, layout, canvas, k)))
  }

  function ExpectedFrames(pages: seq<Size>, layout: Layout, canvas: Size): seq<Frame>
    requires AllValid(pages)
    requires layout == Book ==> canvas.w >= GAP
  {
    seq(FrameCount(|pages|, layout), k requires 0 <= k < FrameCount(|pages|, layout) =>
      ExpectedFrame(pages, layout, canvas, k))
  }

  /** Paint one frame: a fresh black canvas, the left page pasted, then the
      right page if the plan has one; the result is the saved image. */
  method RenderFrame(canvas: Size, plan: Plan) returns (rows: seq<seq<Pixel>>)
    ensures rows == Render(canvas, plan)
  {
    var c := new Canvas(canvas.w, canvas.h);
    c.Paste(plan.left.Source(), plan.left.rect.x, plan.left.rect.y);
    if plan.right.Some? {
      c.Paste(plan.right.value.Source(), plan.right.value.rect.x, plan.right.value.rect.y);
    }
    rows := c.Rows();
    var expected := Render(canvas, plan);
    forall y | 0 <= y < canvas.h
      ensures rows[y] == expected[y]
    {
      assert forall x :: 0 <= x < canvas.w ==> rows[y][x] == PixelAt(plan, x, y);
    }
  }

  /** Frame `k` of the given layout: nothing when a page on it would be
      resized to zero width or height, otherwise the painted, named frame. */
  method NextFrame(pages: seq<Size>, layout: Layout, canvas: Size, k: nat) returns (frame: Option<Frame>)
    requires AllValid(pages) && k < FrameCount(|pages|, layout)
    requires layout == Book ==> canvas.w >= GAP
    ensures frame.Some? <==> Resizable(FramePlan(pages, layout, canvas, k))
    ensures frame.Some? ==> frame.value == ExpectedFrames(pages, layout, canvas)[k]
  {
    var plan := FramePlan(pages, layout, canvas, k);
    if !Resizable(plan) {
      return None;
    }
    var rows := RenderFrame(canvas, plan);
    frame := Some(Frame(k, FrameName(k), rows));
  }

  lemma PrefixStep<T>(s: seq<T>, n: nat)
    requires n < |s|
    ensures s[..n] + [s[n]] == s[..n + 1]
  {
  }

  /** Single-page loop: frame `i` is page `i` fitted to the whole canvas. */
  method ComposeSingle(pages: seq<Size>, canvas: Size) returns (r: Result<seq<Frame>>)
    requires AllValid(pages)
    ensures r.Ok? <==> AllResizable(pages, Single, canvas)
    ensures r.Err? ==> r.error == ZeroSizeResize
    ensures r.Ok? ==> r.value == ExpectedFrames(pages, Single, canvas)
  {
    ghost var expected := ExpectedFrames(pages, Single, canvas);
    var frames: seq<Frame> := [];
    var i := 0;
    while i < |pages|
      invariant i <= |pages| && |frames| == i
      invariant ResizableUpTo(pages, Single, canvas, i)
      invariant frames == expected[..i]
    {
      var frame := NextFrame(pages, Single, canvas, i);
      if frame.None? {
        assert !AllResizable(pages, Single, canvas) by {
          assert !Resizable(FramePlan(pages, Single, canvas, i));
        }
        return Err(ZeroSizeResize);
      }
      ResizableStep(pages, Single, canvas, i);
      PrefixStep(expected, i);
      frames := frames + [frame.value];
      i := i + 1;
    }
    assert i == FrameCount(|pages|, Single);
    assert frames == expected;
    r := Ok(frames);
  }

  /** Book loop: `i` steps over 0, 2, 4, ...; frame `i // 2` holds pages `i`
      and `i + 1`. */
  method ComposeBook(pages: seq<Size>, canvas: Size) returns (r: Result<seq<Frame>>)
    requires AllValid(pages) && canvas.w >= GAP
    ensures r.Ok? <==> AllResizable(pages, Book, canvas)
    ensures r.Err? ==> r.error == ZeroSizeResize
    ensures r.Ok? ==> r.value == ExpectedFrames(pages, Book, canvas)
  {
    ghost var expected := ExpectedFrames(pages, Book, canvas);
    var frames: seq<Frame> := [];
    var i := 0;
    while i < |pages|
      invariant i == 2 * |frames| && |frames| <= |expected|
      invariant ResizableUpTo(pages, Book, canvas, |frames|)
      invariant frames == expected[..|frames|]
    {
      var frameIndex := i / 2;
      assert frameIndex == |frames|;
      var frame := NextFrame(pages, Book, canvas, frameIndex);
      if frame.None? {
        assert !AllResizable(pages, Book, canvas) by {
          assert !Resizable(FramePlan(pages, Book, canvas, frameIndex));
        }
        return Err(ZeroSizeResize);
      }
      ResizableStep(pages, Book, canvas, frameIndex);
      PrefixStep(expected, frameIndex);
      frames := frames + [frame.value];
      i := i + 2;
    }
    assert |frames| == FrameCount(|pages|, Book);
    assert frames == expected;
    r := Ok(frames);
  }

  /** The composition stage of a conversion: an empty page list fails first,
      then an unknown resolution entry; otherwise the layout entry selects
      the loop, which fails if any page would be resized to nothing. */
  method ComposeFrames(pages: seq<Size>, resolutionChoice: string, layoutChoice: string)
    returns (r: Result<seq<Frame>>)
    requires AllValid(pages)
    ensures |pages| == 0 ==> r == Err(NoPages)
    ensures |pages| > 0 && Resolution(resolutionChoice).None? ==> r == Err(UnknownResolution)
    ensures |pages| > 0 && Resolution(resolutionChoice).Some? ==>
      var canvas := Resolution(resolutionChoice).value;
      var layout := LayoutOf(layoutChoice);
      (r.Ok? <==> AllResizable(pages, layout, canvas)) &&
      (r.Err? ==> r.error == ZeroSizeResize) &&
      (r.Ok? ==> r.value == ExpectedFrames(pages, layout, canvas))
  {
    if |pages| == 0 {
      return Err(NoPages);
    }
    var resolution := Resolution(resolutionChoice);
    if resolution.None? {
      return Err(UnknownResolution);
    }
    var canvas := resolution.value;
    if LayoutOf(layoutChoice) == Book {
      r := ComposeBook(pages, canvas);
    } else {
      r := ComposeSingle(pages, canvas);
    }
  }

  /** The pages shown on a frame, left to right. */
  function PagesOf(plan: Plan): seq<int> {
    [plan.left.page] + if plan.right.Some? then [plan.right.value.page] else []
  }

  /** The pages shown on frames `0 .. m - 1`, in frame order. */
  function PageOrder(pages: seq<Size>, layout: Layout, canvas: Size, m: nat): seq<int>
    requires AllValid(pages) && m <= FrameCount(|pages|, layout)
    requires layout == Book ==> canvas.w >= GAP
  {
    if m == 0 then [] else PageOrder(pages, layout, canvas, m - 1) + PagesOf(FramePlan(pages, layout, canvas, m - 1))
  }

  /** The first `m` frames show exactly the first `m` pages (single mode) or
      the first `min(2m, n)` pages (book mode), each once, in page order. */
  lemma {:induction false} PageOrderPrefix(pages: seq<Size>, layout: Layout, canvas: Size, m: nat)
    requires AllValid(pages) && m <= FrameCount(|pages|, layout)
    requires layout == Book ==> canvas.w >= GAP
    ensures var shown := if layout == Single then m else if 2 * m < |pages| then 2 * m else |pages|;
            PageOrder(pages, layout, canvas, m) == seq(shown, p => p)
  {
    if m > 0 {
      PageOrderPrefix(pages, layout, canvas, m - 1);
      var plan := FramePlan(pages, layout, canvas, m - 1);
      var order := PageOrder(pages, layout, canvas, m);
      assert order == PageOrder(pages, layout, canvas, m - 1) + PagesOf(plan);
      FramePages(pages, layout, canvas, m - 1);
      if layout == Single {
        RangeStep(m - 1);
        assert order == seq(m, p => p);
      } else if 2 * m - 1 < |pages| {
        RangeStep(2 * m - 2);
        RangeStep(2 * m - 1);
        assert order == seq(2 * m, p => p);
      } else {
        RangeStep(2 * m - 2);
        assert order == seq(|pages|, p => p);
      }
    }
  }

  /** The pages frame `k` shows, left to right. */
  lemma FramePages(pages: seq<Size>, layout: Layout, canvas: Size, k: nat)
    requires AllValid(pages) && k < FrameCount(|pages|, layout)
    requires layout == Book ==> canvas.w >= GAP
    ensures PagesOf(FramePlan(pages, layout, canvas, k)) ==
      if layout == Single then [k]
      else if 2 * k + 1 < |pages| then [2 * k] + [2 * k + 1]
      else [2 * k]
  {
  }

  lemma RangeStep(n: nat)
    ensures seq(n, p => p) + [n] == seq(n + 1, p => p)
  {
  }

  /** Over a whole conversion every page is shown exactly once, and frame
      order is page order. */
  lemma PagesShownInOrder(pages: seq<Size>, layout: Layout, canvas: Size)
    requires AllValid(pages)
    requires layout == Book ==> canvas.w >= GAP
    ensures PageOrder(pages, layout, canvas, FrameCount(|pages|, layout)) == seq(|pages|, p => p)
  {
    PageOrderPrefix(pages, layout, canvas, FrameCount(|pages|, layout));
  }

  /** Single mode: frame `k` shows page `k` fitted and centred on the whole
      canvas, and every other pixel is black. */
  lemma SingleFrameContents(pages: seq<Size>, canvas: Size, k: nat, x: nat, y: nat)
    requires AllValid(pages) && k < |pages|
    ensures var r := PlaceInRegion(pages[k], 0, canvas);
            PixelAt(FramePlan(pages, Single, canvas, k), x, y) ==
              if Covers(r, x, y) then Sample(k, r.w, r.h, x - r.x, y - r.y) else Black
  {
  }

  /** Book mode: on frame `k` the left fitted rectangle shows page `2k`, the
      right one page `2k + 1` (when it exists), and every other pixel,
      including the gap, is black. */
  lemma BookFrameContents(pages: seq<Size>, canvas: Size, k: nat, x: nat, y: nat)
    requires AllValid(pages) && canvas.w >= GAP && k < FrameCount(|pages|, Book)
    ensures var region := BookRegion(canvas.w, canvas.h);
            var l := PlaceInRegion(pages[2 * k], 0, region);
            var px := PixelAt(FramePlan(pages, Book, canvas, k), x, y);
            if Covers(l, x, y) then px == Sample(2 * k, l.w, l.h, x - l.x, y - l.y)
            else if 2 * k + 1 < |pages| then
              var r := PlaceInRegion(pages[2 * k + 1], RightRegionX(canvas.w), region);
              px == if Covers(r, x, y) then Sample(2 * k + 1, r.w, r.h, x - r.x, y - r.y) else Black
            else px == Black
  {
    if 2 * k + 1 < |pages| {
      BookPagesSeparated(canvas.w, canvas.h, pages[2 * k], pages[2 * k + 1]);
    }
  }

  /** With an odd page count the last book frame has no right page: every
      pixel from the gap rightwards stays background black. */
  lemma OddBookLastFrameRightBlank(pages: seq<Size>, canvas: Size, x: nat, y: nat)
    requires AllValid(pages) && canvas.w >= GAP && |pages| % 2 == 1
    requires BookRegion(canvas.w, canvas.h).w <= x
    ensures var last := FrameCount(|pages|, Book) - 1;
            FramePlan(pages, Book, canvas, last).right.None? &&
            PixelAt(FramePlan(pages, Book, canvas, last), x, y) == Black
  {
    var last := FrameCount(|pages|, Book) - 1;
    assert 2 * last + 1 == |pages|;
    var plan := FramePlan(pages, Book, canvas, last);
    assert plan.right.None? && !Covers(plan.left.rect, x, y);
  }

  /** With an even page count every book frame shows two pages. */
  lemma EvenBookFramesFull(pages: seq<Size>, canvas: Size, k: nat)
    requires AllValid(pages) && canvas.w >= GAP && |pages| % 2 == 0 && k < FrameCount(|pages|, Book)
    ensures FramePlan(pages, Book, canvas, k).right.Some?
  {
  }

  /** Three pages of 100x200, 200x100 and 150x150 on a 400x300 canvas: three
      single-page frames, the first showing page 0 as 150x300 at (125, 0);
      or two book frames, the second holding only page 2 on its left. */
  lemma ThreePageExample()
    ensures var pages := [Size(100, 200), Size(200, 100), Size(150, 150)];
            var canvas := Size(400, 300);
            FrameCount(3, Single) == 3 &&
            FramePlan(pages, Single, canvas, 0) == Plan(Placement(0, Rect(125, 0, 150, 300)), None) &&
            FrameCount(3, Book) == 2 &&
            FramePlan(pages, Book, canvas, 1).left.page == 2 &&
            FramePlan(pages, Book, canvas, 1).right.None?
  {
  }
}
