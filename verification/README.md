# Presentation viewer: navigation and A4 PDF export

This project models the presentation viewer component
(`src/components/PresentationViewer.jsx`). The viewer shows a deck of twelve
slides, one at a time. Its state is the current slide index and an
`isExporting` flag.

- The left and right arrow keys and Space move between slides. So do the "previous" and
  "next" toolbar buttons.
- The export button turns the whole deck into a landscape A4 PDF, one slide
  bitmap per page, and hands the file to the browser as a download.

The model is split into five modules:

- `Navigation` holds the keydown updaters and the toolbar buttons with their
  `disabled` guards. It also holds the visibility rule, which says that slide
  i is shown when it is active or an export is running.
- `Geometry` holds the fit-and-centre computation. This is the uniform scale
  `min(pw / w, ph / h)` with equal opposite margins, over exact reals.
- `Pdf` is the part of the PDF document builder that the export uses. It is a
  `Document` class. `AddPage`, `Rect` and `AddImage` change its page list,
  `SetFillColor` changes the colour later rectangles use, and `Save` hands
  the pages out as a download.
- `Export` gives the export loop as a specification. `Process` is the
  document after slides 0 .. k-1 have been handled, or `None` once a capture
  has failed. The module also has lemmas on failure, page count, deck order
  and layout.
- `PresentationViewer` holds the deck, the `ExportResult` specification and
  the lemma `DeckExportsTwelvePages` about it, and the `Viewer` class, whose fields are `currentSlide`, `isExporting` and
  `downloads`. Its methods are the keydown handler, the three toolbar clicks
  and `ExportToPdf`. `ExportToPdf` is the imperative loop, proved equal to
  `ExportResult`.

Each slide's DOM reference is an `Element`, and capturing it is folded into
that value. A slide is `Unmounted` when the reference is missing, and the loop
skips it. Otherwise it is `Mounted` with its capture result:

- a `Bitmap` of positive pixel size;
- `CaptureError`, which covers a throw during that slide's iteration. This
  can come from html2canvas, the PNG encoding or the document builder's
  per-slide calls (`getImageProperties`, `addPage`, `rect`, `addImage`). The
  `catch` block then reports the error and nothing is saved.

Besides the visibility rule (lines 2225-2227) and the styling of the slides
and the export button, the flag is checked in two places:

- Of the navigation inputs, only the keyboard handler checks `isExporting`
  (line 15). The Prev/Next
  buttons are disabled only at the deck's ends (lines 2117 and 2142), so
  `Click` ignores the flag.
- `exportToPDF` has no re-entry check of its own (lines 2037-2038). The only
  guard is the export button's `disabled={isExporting}` (line 2184).
  `ClickExport` models that button, and `ExportToPdf` models the unguarded
  function.

## Model

| member | source | states |
|---|---|---|
| Navigation.Classify | src/components/PresentationViewer.jsx:16-22 | ArrowRight (by key) or Space (by code) advances. Otherwise ArrowLeft (by key) retreats. Both directions of each case are stated as if-and-only-if. |
| Navigation.Advanced | src/components/PresentationViewer.jsx:18 | The "next" updater is `min(prev + 1, n - 1)` on an in-range index and stays in `[0, n)`. |
| Navigation.Retreated | src/components/PresentationViewer.jsx:21 | The "previous" updater is `max(prev - 1, 0)` on a non-negative index and never increases it. |
| Navigation.OnKeyDown | src/components/PresentationViewer.jsx:12-24 | While exporting the index is unchanged. An unbound key changes nothing. The index never leaves the deck. Advance and Retreat give the clamped min/max steps. |
| Navigation.KeysStayInDeck | src/components/PresentationViewer.jsx:12-24 | Any sequence of key presses keeps the index inside `[0, n)`. |
| Navigation.KeysIgnoredWhileExporting | src/components/PresentationViewer.jsx:15 | While the export flag is up, no sequence of key presses moves the index. |
| Navigation.ThreeSlideWalk | src/components/PresentationViewer.jsx:16-22 | On three slides, three ArrowRight presses from 0 stop at 2, and ArrowLeft presses from 2 stop at 0. |
| Navigation.Disabled | src/components/PresentationViewer.jsx:2117-2142 | Prev is disabled on the first slide and Next on the last. On an in-range index a button is disabled exactly when its unclamped update would leave the deck. |
| Navigation.Click | src/components/PresentationViewer.jsx:2116-2143 | A disabled button swallows the click. An enabled Prev or Next gives exactly the keyboard's clamped step. The index stays in the deck. |
| Navigation.IsVisible | src/components/PresentationViewer.jsx:2211-2227 | While exporting every slide is shown. Otherwise a slide is shown exactly when it is the active one. |
| Navigation.Indices | src/components/PresentationViewer.jsx:2210 | The set holds exactly the slide indices `0 .. n-1`. |
| Navigation.OnlyActiveVisible | src/components/PresentationViewer.jsx:2210-2227 | Outside an export exactly one slide is visible, the active one. |
| Navigation.AllVisibleWhileExporting | src/components/PresentationViewer.jsx:2210-2227 | During an export all n slides are visible, so each one is painted when captured. |
| Geometry.RatioFits | src/components/PresentationViewer.jsx:2064-2067 | The scale `min(pw / w, ph / h)` is positive, maps the bitmap inside the page and meets the page edge on at least one axis. |
| Geometry.FitToPage | src/components/PresentationViewer.jsx:2064-2072 | The placed image lies inside the page with equal left/right and top/bottom margins. It touches the page on one axis and keeps the bitmap's aspect ratio. |
| Geometry.FitIsLargest | src/components/PresentationViewer.jsx:2064-2069 | No larger uniform scale fits the page: any fitting scale gives an image no wider and no taller. |
| Pdf.DrawOnLast | src/components/PresentationViewer.jsx:2078-2080 | Drawing goes to the current (last) page and never changes the number of pages. |
| Pdf.Document.constructor | src/components/PresentationViewer.jsx:2042-2048 | A new landscape A4 document (297 by 210 mm) holds one blank page. |
| Pdf.Document.AddPage | src/components/PresentationViewer.jsx:2074-2076 | One blank page is appended and becomes the current page. |
| Pdf.Document.SetFillColor | src/components/PresentationViewer.jsx:2078 | Only the fill colour changes. |
| Pdf.Document.Rect | src/components/PresentationViewer.jsx:2079 | A rectangle in the current fill colour is added to the current page. |
| Pdf.Document.AddImage | src/components/PresentationViewer.jsx:2080 | The bitmap is added at its placement on the current page. |
| Pdf.Document.Save | src/components/PresentationViewer.jsx:2082 | The download carries the given name and exactly the document's pages, at least one. |
| Export.Placed | src/components/PresentationViewer.jsx:2064-2072 | A bitmap placed on landscape A4 lies inside the page and is centred. |
| Export.DrawSlide | src/components/PresentationViewer.jsx:2074-2080 | A captured slide adds one page, except the first slide, which is drawn on the initial page. |
| Export.DrawingIsDrawSlide | src/components/PresentationViewer.jsx:2074-2080 | The builder calls of one iteration (`addPage` when i > 0, the background fill, `addImage`) yield exactly `DrawSlide`. |
| Export.Step | src/components/PresentationViewer.jsx:2051-2080 | After one iteration a successful document still has a current page. |
| Export.Process | src/components/PresentationViewer.jsx:2050-2081 | After slides 0 .. k-1, a successful document has at least one page. |
| Export.FailureIsFinal | src/components/PresentationViewer.jsx:2050-2086 | Once a capture throws, the export stays failed: the loop is left for `catch`. |
| Export.FailsIff | src/components/PresentationViewer.jsx:2050-2086 | The export fails if and only if some slide it reaches fails to capture. |
| Export.PageCount | src/components/PresentationViewer.jsx:2041-2076 | The document has one initial page plus one page per mounted slide after the first. |
| Export.FirstPageSettled | src/components/PresentationViewer.jsx:2050-2076 | Page 0 is fixed after the first iteration. If slide 0's element is missing, page 0 stays blank. |
| Export.StepAppends | src/components/PresentationViewer.jsx:2074-2080 | A captured slide i > 0 appends its own page. Slide 0 fills the initial blank page. |
| Export.DeckOrder | src/components/PresentationViewer.jsx:2050-2081 | When every slide captures, the document has one page per slide. Page j is the background plus slide j's bitmap at its fitted placement. |
| Export.LaidOutLater | src/components/PresentationViewer.jsx:2052 | Skipping an absent slide keeps the layout invariant. |
| Export.LaidOutAppend | src/components/PresentationViewer.jsx:2074-2080 | Appending the next slide's centred page keeps the layout invariant. |
| Export.StepLaidOut | src/components/PresentationViewer.jsx:2051-2080 | Each iteration preserves the layout invariant. |
| Export.ProcessLaidOut | src/components/PresentationViewer.jsx:2050-2081 | Every document the loop builds is laid out:<br>- only page 0 may be blank;<br>- every page is background plus one centred bitmap;<br>- bitmaps are in strictly increasing deck order. |
| Export.PlacedCentres | src/components/PresentationViewer.jsx:2064-2072 | The viewer's placement rule centres every bitmap on the page. |
| PresentationViewer.ExportResult | src/components/PresentationViewer.jsx:2037-2089 | The export aborts exactly when some capture fails. Otherwise it saves `Sustentacion_Cruz_Saco_A4.pdf` with one initial page plus one per mounted slide after the first. |
| PresentationViewer.DeckExportsTwelvePages | src/components/PresentationViewer.jsx:58-2089 | Exporting the viewer's twelve-slide deck with every slide captured saves a file of exactly twelve pages, page j showing slide j. |
| PresentationViewer.ExportFollowsDeck | src/components/PresentationViewer.jsx:2050-2082 | With every slide captured, the saved file has one page per slide in deck order, each page fitted and centred. |
| PresentationViewer.SavedFileLaidOut | src/components/PresentationViewer.jsx:2050-2082 | Every saved file satisfies the layout invariant. |
| PresentationViewer.FailureOnSecondSlide | src/components/PresentationViewer.jsx:2083-2085 | A failure on slide 2 of 3 saves nothing. |
| PresentationViewer.DrawCaptured | src/components/PresentationViewer.jsx:2064-2080 | One captured slide is drawn. The document becomes `DrawSlide` of its old pages with the bitmap at `Placed`. |
| PresentationViewer.Viewer.constructor | src/components/PresentationViewer.jsx:7-8 | The viewer mounts on slide 0, not exporting. |
| PresentationViewer.Viewer.KeyDown | src/components/PresentationViewer.jsx:12-24 | The new index is `OnKeyDown` of the old one under the current export flag, and stays in the deck. |
| PresentationViewer.Viewer.ClickPrev | src/components/PresentationViewer.jsx:2116-2118 | The new index is `Click(PrevButton, …)` of the old one. |
| PresentationViewer.Viewer.ClickNext | src/components/PresentationViewer.jsx:2141-2143 | The new index is `Click(NextButton, …)` of the old one. |
| PresentationViewer.Viewer.Capture | src/components/PresentationViewer.jsx:2054-2063 | A slide can be captured only while it is visible. The capture yields the element's shot. |
| PresentationViewer.Viewer.ExportDisabled | src/components/PresentationViewer.jsx:2184 | The export button is disabled exactly while an export runs. While disabled every slide is shown; while enabled only the active slide is. |
| PresentationViewer.Viewer.ClickExport | src/components/PresentationViewer.jsx:2182-2184 | While exporting, the disabled button does nothing. Otherwise the export runs and yields `ExportResult`. The slide index is untouched. |
| PresentationViewer.Viewer.ExportToPdf | src/components/PresentationViewer.jsx:2037-2089 | The outcome equals `ExportResult`. The flag is down on every path. The current slide is unchanged. A download is added exactly when the file is saved. |

## Left out

- Fullscreen (`toggleFullScreen` at lines 47-55, and the fullscreen-dependent layout) is browser I/O and not part of this model. The export button is rendered only outside fullscreen; the model assumes it is shown.
- The 800 ms settling delay before capture is a timer. The model treats the flag as already observed when capture starts.
- `exportToPDF` is asynchronous. A Prev/Next click or key press interleaved between its awaits is not modelled: `ExportToPdf` runs as one step.
- React hooks and rendering are not modelled: `useState`, `useEffect` listener registration and removal, and `useRef`. The state is modelled as the `Viewer` fields.
- Pixel encoding is not modelled: html2canvas's options (scale 2, CORS, background `#0f172a`), the PNG data URL and the image bitmap contents. A capture is its pixel size or an error.
- jsPDF internals are not part of this model. Throws from its per-slide calls are folded into the slide's `CaptureError`.
- PresentationViewer.ExportResult: does not model the jsPDF constructor (line 2042) or `save` (line 2082) throwing. These throws happen outside any slide's iteration and also end in `catch` with no download. In the model an export saves whenever every capture succeeds.
- PresentationViewer.Viewer.ExportToPdf: for the same reason, it has no path on which the document builder itself fails outside a slide.
- The `alert` and `console.error` in the `catch` block are user notices. The model records only that nothing is saved.
- Geometry.FitToPage: uses exact reals, not IEEE doubles, so rounding in the scale and margins is not modelled.
- Slide content, the theme, the transitions, `zIndex` and the slide title bar are presentation only. Each slide is kept only as its kind (cover, split or full content).
- `src/App.jsx` and the rest of the application are not part of this model.
