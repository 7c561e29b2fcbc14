# PDF to MP4 slideshow: frame composition

A Dafny model of the core of a desktop converter that turns PDF pages into
a slideshow video. The core takes the rasterised pages (only their pixel
sizes matter here), a resolution menu entry and a layout menu entry, and
produces the numbered frames the video encoder reads:

- **Single page**: every page is fitted into the whole canvas, one frame per page.
- **Book mode**: pages are taken in pairs. Each side is a region of
  `(width - 20) // 2` by `height`, and the right region starts 20 columns
  after the left region ends (column `page_width + 20`). With an odd page count the last frame has only a left page.
- **Fit and centre** (`Geometry.Fit`, `Geometry.PlaceInRegion`): a page
  relatively wider than its region fills the region's width, otherwise its
  height. The other side is scaled and truncated. The result is centred by
  floor division and pasted on a black canvas.
- Frames are saved as `page_%04d.png` and their indices collected in order.
- The output video is named `<stem>_slideshow.mp4`, or `<stem>_slideshow_<n>.mp4`
  with the first counter `n = 1, 2, ...` whose name is free.
- The output folder's name is shown shortened to 17 characters plus `...`
  when it is longer than 20.

Modules: `Decimal` (numerals and their parse), `Geometry` (fit, centring,
book regions), `Raster` (the canvas as a class over a two-dimensional array,
with an in-place `Paste`), `Compositor` (resolution table, frame plans,
the two composition loops, properties of the frame sequence), and `Naming`
(output-name loop, folder label).

Pixels are symbolic. A canvas pixel is either `Black` or
`Sample(p, w, h, u, v)`, meaning "pixel (u, v) of page p resampled to w x h".
This lets the lemmas say exactly which page each pixel of each frame comes from.

Where one might expect rounding, a dimension check or a gap that scales with the canvas, the model follows the code:
- The scaled side is truncated with `int(...)`, not rounded.
- There is no check for non-positive canvas sizes. The canvas always comes
  from a three-entry table, and an entry outside it fails as a missing key
  (`UnknownResolution`).
- The gap is the constant 20. The right region spans
  `[page_width + 20, 2 * page_width + 20)`, which can leave one unused
  column at the right edge (`Geometry.BookRegion`).

## Model

| member | source | states |
|---|---|---|
| `Geometry.Fit` | pdf_to_video.py:283-288 | The scaled page never exceeds its region. It fills the region's width when the page is relatively wider, otherwise its height. The other side is the truncated proportional length: within one pixel of the page's aspect ratio, never above it. |
| `Geometry.FitIsLargest` | pdf_to_video.py:328-333 | No box inside the region with exactly the page's aspect ratio is wider or taller than the fitted size. |
| `Geometry.Offset` | pdf_to_video.py:291-292 | The floor-division centring offset keeps the scaled extent inside the region. The far margin equals the near margin or is one pixel larger. |
| `Geometry.PlaceInRegion` | pdf_to_video.py:300-309 | The pasted rectangle has the fitted size, lies inside the region that starts at the given column, and is centred on both axes to within one pixel. |
| `Geometry.RightRegionX` | pdf_to_video.py:308 | The right region starts 20 columns after a region of `page_width = (width - 20) // 2` columns: two such regions and the gap fit in the canvas with at most one column to spare. |
| `Geometry.BookRegion` | pdf_to_video.py:276-277 | Each book region is `(width - 20) // 2` wide and full height. The two regions plus the gap use the canvas width except for at most one column. |
| `Geometry.BookPagesSeparated` | pdf_to_video.py:277-308 | The left page stays within `[0, page_width)`. The right page stays within `[page_width + 20, 2 * page_width + 20]`, which is at most the canvas width. At least 20 columns separate the two pages. |
| `Geometry.SinglePageExample` | pdf_to_video.py:326-339 | A 100x200 page on a 400x300 canvas becomes 150x300 at (125, 0). |
| `Geometry.BookRegionExample` | pdf_to_video.py:276-277 | A 400x300 canvas gives 190x300 book regions, and the right region starts at column 210. |
| `Raster.Canvas.constructor` | pdf_to_video.py:273 | A new canvas has the requested size and every pixel is black. |
| `Raster.Canvas.Paste` | pdf_to_video.py:293 | Every canvas pixel the pasted image covers takes the image's pixel at the matching offset. Every other pixel keeps its old value. |
| `Raster.Canvas.Rows` | pdf_to_video.py:314 | The saved image has the canvas's height and width and holds exactly the canvas pixels. |
| `Compositor.Resolution` | pdf_to_video.py:174-180 | Exactly the three menu entries have a canvas size. Each is 16:9, positive, and wide enough for a book spread. |
| `Compositor.ResolutionLabelsNameTheirSize` | pdf_to_video.py:176-178 | Every menu entry ends with "(WxH)" for the size it selects. |
| `Compositor.LayoutOf` | pdf_to_video.py:258 | Book mode is chosen exactly when the layout entry is "Book Mode (2 pages)"; any other entry means single-page mode. |
| `Compositor.FrameCount` | pdf_to_video.py:265 | Single mode makes one frame per page. Book mode makes `ceil(n / 2)` frames. |
| `Compositor.FrameName` | pdf_to_video.py:313 | A frame's name is `page_`, digits, then `.png`, with exactly `max(4, len(str(k)))` digits, as `f"page_{k:04d}.png"` produces at lines 313 and 342. With `FrameNameRoundTrip` this fixes the name. |
| `Compositor.FramePlan` | pdf_to_video.py:277-339 | Book mode follows lines 277-309, single mode lines 326-339. Single mode puts page `k` alone on frame `k`, inside the canvas. Book mode puts page `2k` inside the left region `[0, page_width)`. Page `2k + 1` goes on the right exactly when it exists, starting at or after `page_width + 20` and ending inside the canvas. |
| `Compositor.Resizable` | pdf_to_video.py:290 | A frame can be resized only when every page on it has a positive fitted width and height, since the image library rejects a zero-size resize (lines 290, 307 and 335). |
| `Compositor.FrameNameRoundTrip` | pdf_to_video.py:313 | A frame's `page_%04d.png` name is well formed, and parsing its number back gives the frame index, so distinct frames get distinct names. |
| `Compositor.Render` | pdf_to_video.py:273-293 | Every frame has exactly the canvas's height and width, whatever the page sizes. Each pixel is the last pasted page covering it at the matching offset, or black (`PixelAt`). |
| `Compositor.RenderFrame` | pdf_to_video.py:273-310 | Painting black, pasting the left page and then the right page (when present) yields the frame the plan describes. |
| `Compositor.ComposeSingle` | pdf_to_video.py:318-344 | The single-page loop succeeds iff every fitted page has positive size. On success frame `i` has index `i`, name `page_%04d` of `i`, and the pixels of page `i` fitted to the canvas, for `i` in `0 .. n-1`. |
| `Compositor.ComposeBook` | pdf_to_video.py:263-315 | The book loop succeeds iff every fitted page has positive size. On success it yields `ceil(n / 2)` frames, and frame `k` has index `k`, name `page_%04d` of `k`, and pages `2k` and (if present) `2k + 1`. |
| `Compositor.ComposeFrames` | pdf_to_video.py:254-263 | No pages fails before any frame is made. Next, an unknown resolution entry fails. Otherwise the layout entry selects book mode only for "Book Mode (2 pages)", and the result is the chosen loop's. |
| `Compositor.PageOrderPrefix` | pdf_to_video.py:265-297 | The first `m` frames show exactly pages `0 .. m-1` (single) or `0 .. min(2m, n)-1` (book), each once, in page order. |
| `Compositor.PagesShownInOrder` | pdf_to_video.py:263-318 | Over the whole frame sequence every page appears exactly once, and frame order is page order. |
| `Compositor.SingleFrameContents` | pdf_to_video.py:328-340 | In single mode every pixel of frame `k` inside the fitted rectangle comes from page `k` at the matching offset. Every other pixel is black. |
| `Compositor.BookFrameContents` | pdf_to_video.py:279-310 | In book mode the left rectangle of frame `k` shows page `2k`, and the right rectangle shows page `2k + 1` when it exists. The gap and all margins are black. |
| `Compositor.OddBookLastFrameRightBlank` | pdf_to_video.py:295-297 | With an odd page count the last book frame has no right page. Every pixel from the end of the left region onwards is black. |
| `Compositor.EvenBookFramesFull` | pdf_to_video.py:296 | With an even page count every book frame has a right page. |
| `Compositor.ThreePageExample` | pdf_to_video.py:263-344 | Three pages of 100x200, 200x100 and 150x150 on a 400x300 canvas give three single-page frames, the first showing page 0 as 150x300 at (125, 0). In book mode they give two frames, and the second holds only page 2, on the left. |
| `Decimal.Digits` | pdf_to_video.py:354 | `str(counter)`: a non-empty string of decimal digits with no leading zero unless it is the single digit `0`. |
| `Decimal.ParseDigits` | pdf_to_video.py:354 | Parsing the decimal numeral of `n` gives back `n`. |
| `Decimal.ParseZeroPadded` | pdf_to_video.py:342 | Zero-padding a numeral to a width does not change the number it denotes. |
| `Decimal.ZeroPadded` | pdf_to_video.py:313 | The padded numeral has the requested width, or more when the number needs it. It consists of zeros followed by the plain numeral. |
| `Naming.OutputName` | pdf_to_video.py:350-354 | Every candidate is `<stem>_slideshow...mp4`. Only counter 0, the first candidate, is the plain `<stem>_slideshow.mp4`. |
| `Naming.OutputNameSuffix` | pdf_to_video.py:354 | A candidate with counter `n > 0` is `<stem>_slideshow_`, a decimal numeral, then `.mp4`, and that numeral reads back as `n`. |
| `Naming.OutputNameInjective` | pdf_to_video.py:350-354 | Different counters never produce the same output name. |
| `Naming.ChooseOutputName` | pdf_to_video.py:348-355 | The loop tries `_slideshow.mp4` first, then counters 1, 2, .... It stops, for any finite set of existing names, on a name not in that set, and every earlier candidate was taken. |
| `Naming.FolderLabel` | pdf_to_video.py:169-171 | The label is at most 20 characters. A name of at most 20 is unchanged. A longer name becomes its first 17 characters followed by "...". |

## Left out

- Aspect-ratio arithmetic is exact rational arithmetic written as integer cross-multiplication (`w * rh > rw * h`, `(rw * h) / w`, `(rh * w) / h`). It stands in for the Python float division, comparison and `int()` truncation. Results can differ by one pixel where the float quotient falls just below an integer. The branch taken can differ only where the two aspect ratios are nearly equal: distinct ratios that round to the same double. Equal ratios give identical doubles and take the same branch as the exact test.
- Pixel values of the LANCZOS resampling and PNG encoding are not modelled. Pixels are symbolic (`Sample(page, w, h, u, v)`), so only the paste geometry and which page each pixel comes from are captured.
- Zero-size resize: the image library rejects a resize to a zero width or height. The model treats that as a failed conversion (`ZeroSizeResize`). It happens only for pages several hundred times wider than tall, or taller than wide.
- The PDF rasteriser is not modelled. Pages are given as their pixel sizes, always positive.
- The temporary directory, file writes and deletion are not modelled. A frame's file name is carried in the `Frame` value.
- Existence checks on the output folder are a finite set of names (`existing`). `Path(...).stem` and `Path(...).name` are inputs, not modelled.
- All user-interface code is left out: widgets, dialogs, progress and status updates, enabling and disabling controls.
- The background thread and the `is_processing` flag are left out.
- The ffmpeg availability check, the ffmpeg command line, the subprocess call and its exit status are not modelled.
- The frame rate `1 / duration` (a float) and parsing of the duration entry are left out.
