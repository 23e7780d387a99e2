/** The export pipeline as a specification: what the document holds after the
    loop over the deck has handled slides 0 .. k-1, and what it guarantees
    about page count, page order and placement. */
module Export {
  import opened Geometry
  import opened Pdf

  datatype Option<T> = None | Some(value: T)

  /** A bitmap dimension in pixels. */
  type Pixels = x: int | x > 0 witness 1

  /** The result of rasterising one slide: a bitmap of positive size, or a
      failure (the capture library, the image encoding or the document
      builder throwing). */
  datatype Shot = Bitmap(width: Pixels, height: Pixels) | CaptureError

  /** The DOM reference held for one slide: absent (the loop skips it), or a
      mounted element together with what capturing it yields. */
  datatype Element = Unmounted | Mounted(shot: Shot)

  /** The page background, the deck's dark navy (#0f172a). */
  const Background: Rgb := Rgb(15, 23, 42)

  /** The name of the downloaded file. */
  const FileName: string := "Sustentacion_Cruz_Saco_A4.pdf"

  /** Where a w-by-h bitmap is drawn on a landscape A4 page. */
  function Placed(w: Pixels, h: Pixels): (p: Placement)
    ensures CentredOn(p, A4Width, A4Height)
  {
    FitToPage(w as real, h as real, A4Width, A4Height)
  }

  /** The page slide i occupies: the background over the whole page, then
      the bitmap scaled to fit and centred. */
  function SlidePage(i: nat, at: Placement): Page
  {
    Page([FillRect(0.0, 0.0, A4Width, A4Height, Background), Image(i, at)])
  }

  /** One iteration for a captured slide i: the slide's page is appended,
      except that the first slide is drawn on the initial page. */
  function DrawSlide(pages: seq<Page>, i: nat, at: Placement): (r: seq<Page>)
    requires |pages| > 0
    ensures |r| == if i > 0 then |pages| + 1 else |pages|
  {
    if i > 0 then pages + [SlidePage(i, at)]
    else pages[..|pages| - 1] + [Page(pages[|pages| - 1].ops + SlidePage(i, at).ops)]
  }

  /** The document operations of one iteration (a new page for every slide
      but the first, the background fill, the bitmap) produce DrawSlide. */
  lemma DrawingIsDrawSlide(pages: seq<Page>, i: nat, at: Placement)
    requires |pages| > 0
    ensures var ps := if i > 0 then pages + [BlankPage] else pages;
      DrawOnLast(DrawOnLast(ps, FillRect(0.0, 0.0, A4Width, A4Height, Background)), Image(i, at))
        == DrawSlide(pages, i, at)
  {
    var ps := if i > 0 then pages + [BlankPage] else pages;
    var once := DrawOnLast(ps, FillRect(0.0, 0.0, A4Width, A4Height, Background));
    var twice := DrawOnLast(once, Image(i, at));
    assert |twice| == |ps|;
    forall j | 0 <= j < |ps| - 1
      ensures twice[j] == DrawSlide(pages, i, at)[j]
    {
      assert twice[j] == once[j] == ps[j];
    }
    assert twice[|ps| - 1] == DrawSlide(pages, i, at)[|ps| - 1];
  }

  /** A rule that places a w-by-h bitmap on the page. The viewer's rule is
      Placed; the structure of the export does not depend on it. */
  type PlaceRule = (Pixels, Pixels) -> Placement

  /** One iteration of the loop on slide i: an absent element is skipped, a
      failed capture aborts the export, a captured slide is drawn. */
  function Step(place: PlaceRule, pages: seq<Page>, i: nat, element: Element): (r: Option<seq<Page>>)
    requires |pages| > 0
    ensures r.Some? ==> |r.value| > 0
  {
    match element
    case Unmounted => Some(pages)
    case Mounted(CaptureError) => None
    case Mounted(Bitmap(w, h)) => Some(DrawSlide(pages, i, place(w, h)))
  }

  /** The document after the loop has handled slides 0 .. k-1, or None once a
      capture has failed. The document starts with one page. */
  function Process(place: PlaceRule, elements: seq<Element>, k: nat): (r: Option<seq<Page>>)
    requires k <= |elements|
    ensures r.Some? ==> |r.value| >= 1
    decreases k
  {
    if k == 0 then Some([BlankPage])
    else match Process(place, elements, k - 1)
      case None => None
      case Some(pages) => Step(place, pages, k - 1, elements[k - 1])
  }

  /** Slides 1 .. k-1 that are mounted: each of them adds a page. */
  function MountedAfterFirst(elements: seq<Element>, k: nat): nat
    requires k <= |elements|
  {
    if k <= 1 then 0
    else MountedAfterFirst(elements, k - 1) + (if elements[k - 1].Mounted? then 1 else 0)
  }

  /** Once a capture has failed the export stays failed. */
  lemma {:induction false} FailureIsFinal(place: PlaceRule, elements: seq<Element>, j: nat, k: nat)
    requires j <= k <= |elements|
    requires Process(place, elements, j).None?
    ensures Process(place, elements, k).None?
    decreases k
  {
    if j < k {
      FailureIsFinal(place, elements, j, k - 1);
    }
  }

  /** The export fails exactly when some slide it reaches fails to capture. */
  lemma {:induction false} FailsIff(place: PlaceRule, elements: seq<Element>, k: nat)
    requires k <= |elements|
    ensures Process(place, elements, k).None? <==>
      exists j :: 0 <= j < k && elements[j] == Mounted(CaptureError)
    decreases k
  {
    if k > 0 {
      FailsIff(place, elements, k - 1);
      if elements[k - 1] == Mounted(CaptureError) {
        assert Process(place, elements, k).None?;
      }
    }
  }

  /** The document has one page to start with plus one per mounted slide
      after the first. */
  lemma {:induction false} PageCount(place: PlaceRule, elements: seq<Element>, k: nat)
    requires k <= |elements|
    requires Process(place, elements, k).Some?
    ensures |Process(place, elements, k).value| == 1 + MountedAfterFirst(elements, k)
    decreases k
  {
    if k > 0 {
      PageCount(place, elements, k - 1);
    }
  }

  /** Only the first iteration draws on the initial page: later slides
      always start a page of their own. So when the first slide's element is
      absent the first page stays blank. */
  lemma {:induction false} FirstPageSettled(place: PlaceRule, elements: seq<Element>, k: nat)
    requires 1 <= k <= |elements|
    requires Process(place, elements, k).Some?
    ensures Process(place, elements, 1).Some?
    ensures Process(place, elements, k).value[0] == Process(place, elements, 1).value[0]
    ensures elements[0].Unmounted? ==> Process(place, elements, k).value[0] == BlankPage
    decreases k
  {
    if k > 1 {
      FirstPageSettled(place, elements, k - 1);
    }
  }

  /** A captured slide's iteration appends that slide's page (for the
      first slide: fills the initial blank page). */
  lemma StepAppends(place: PlaceRule, pages: seq<Page>, i: nat, w: Pixels, h: Pixels)
    requires |pages| > 0
    ensures Step(place, pages, i, Mounted(Bitmap(w, h))).Some?
    ensures i > 0 ==>
      Step(place, pages, i, Mounted(Bitmap(w, h))).value == pages + [SlidePage(i, place(w, h))]
    ensures i == 0 && pages == [BlankPage] ==>
      Step(place, pages, i, Mounted(Bitmap(w, h))).value == [SlidePage(i, place(w, h))]
  {
    if i == 0 && pages == [BlankPage] {
      var page := SlidePage(i, place(w, h));
      assert BlankPage.ops + page.ops == page.ops;
    }
  }

  /** When every slide is mounted and captures, the document has exactly one
      page per slide and page j shows slide j: deck order, nothing dropped. */
  lemma {:induction false} DeckOrder(place: PlaceRule, elements: seq<Element>, k: nat)
    requires 1 <= k <= |elements|
    requires forall j :: 0 <= j < |elements| ==> elements[j].Mounted? && elements[j].shot.Bitmap?
    ensures Process(place, elements, k).Some?
    ensures |Process(place, elements, k).value| == k
    ensures forall j :: 0 <= j < k ==>
      Process(place, elements, k).value[j]
        == SlidePage(j, place(elements[j].shot.width, elements[j].shot.height))
    decreases k
  {
    var shot := elements[k - 1].shot;
    if k > 1 {
      DeckOrder(place, elements, k - 1);
      StepAppends(place, Process(place, elements, k - 1).value, k - 1, shot.width, shot.height);
    } else {
      StepAppends(place, [BlankPage], 0, shot.width, shot.height);
    }
  }

  /** A page that a captured slide occupies. */
  predicate DrawnPage(p: Page)
  {
    && |p.ops| == 2
    && p.ops[0] == FillRect(0.0, 0.0, A4Width, A4Height, Background)
    && p.ops[1].Image?
    && CentredOn(p.ops[1].at, A4Width, A4Height)
  }

  /** The layout the loop keeps after handling slides 0 .. k-1: only the
      first page may be blank; every other page is a background plus one
      centred bitmap; the bitmaps come from slides already handled and appear
      in strictly increasing deck order. */
  predicate LaidOut(pages: seq<Page>, k: nat)
  {
    && |pages| > 0
    && (pages[0] == BlankPage || DrawnPage(pages[0]))
    && (forall j :: 0 < j < |pages| ==> DrawnPage(pages[j]))
    && (forall j :: 0 <= j < |pages| && DrawnPage(pages[j]) ==> pages[j].ops[1].slide < k)
    && (forall a, b :: 0 <= a < b < |pages| && DrawnPage(pages[a]) && DrawnPage(pages[b]) ==>
          pages[a].ops[1].slide < pages[b].ops[1].slide)
  }

  /** A layout stays a layout when one more slide has been handled without
      drawing anything. */
  lemma LaidOutLater(pages: seq<Page>, k: nat)
    requires LaidOut(pages, k)
    ensures LaidOut(pages, k + 1)
  {
  }

  /** Appending the page of slide k, centred, keeps the layout. */
  lemma LaidOutAppend(pages: seq<Page>, k: nat, at: Placement)
    requires LaidOut(pages, k)
    requires CentredOn(at, A4Width, A4Height)
    ensures LaidOut(pages + [SlidePage(k, at)], k + 1)
  {
    var r := pages + [SlidePage(k, at)];
    assert DrawnPage(r[|pages|]);
    forall a, b | 0 <= a < b < |r| && DrawnPage(r[a]) && DrawnPage(r[b])
      ensures r[a].ops[1].slide < r[b].ops[1].slide
    {
      if b == |pages| {
        assert r[a] == pages[a];
      }
    }
  }

  /** The placement rule keeps every bitmap inside the page, centred. */
  ghost predicate Centres(place: PlaceRule)
  {
    forall w, h :: CentredOn(place(w, h), A4Width, A4Height)
  }

  /** One iteration keeps the layout. */
  lemma StepLaidOut(place: PlaceRule, pages: seq<Page>, i: nat, element: Element, next: seq<Page>)
    requires Centres(place)
    requires LaidOut(pages, i)
    requires i == 0 ==> pages == [BlankPage]
    requires Step(place, pages, i, element) == Some(next)
    ensures LaidOut(next, i + 1)
  {
    match element
    case Unmounted =>
      LaidOutLater(pages, i);
    case Mounted(Bitmap(w, h)) =>
      var at := place(w, h);
      assert CentredOn(at, A4Width, A4Height);
      if i == 0 {
        assert DrawnPage(SlidePage(0, at));
      } else {
        LaidOutAppend(pages, i, at);
      }
  }

  /** With a centring rule, every document the loop produces is laid out:
      pages follow the deck and each bitmap fits its page, centred. */
  lemma {:induction false} ProcessLaidOut(place: PlaceRule, elements: seq<Element>, k: nat)
    requires Centres(place)
    requires k <= |elements|
    requires Process(place, elements, k).Some?
    ensures LaidOut(Process(place, elements, k).value, k)
    decreases k
  {
    if k > 0 {
      var pages := Process(place, elements, k - 1).value;
      ProcessLaidOut(place, elements, k - 1);
      StepLaidOut(place, pages, k - 1, elements[k - 1], Process(place, elements, k).value);
    }
  }

  /** The viewer's rule, FitToPage on landscape A4, is a centring rule. */
  lemma PlacedCentres()
    ensures Centres(Placed)
  {
  }
}
