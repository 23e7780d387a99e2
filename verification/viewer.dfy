/** The presentation viewer component: its state (the current slide and the
    export flag), the keyboard and toolbar handlers that update it, which
    slides it shows, and the export of the whole deck to an A4 PDF. */
module PresentationViewer {
  import opened Navigation
  import opened Geometry
  import opened Pdf
  import opened Export

  /** Slide content is opaque; only the kind of slide is kept. A cover is
      drawn edge to edge; a content slide has a title bar over one region
      (full) or two side-by-side regions (split). */
  datatype Layout = Full | Split
  datatype SlideKind = Cover | Content(layout: Layout)

  /** The deck the viewer shows: twelve slides, a cover first and last. */
  const Deck: seq<SlideKind> := [
    Cover,
    Content(Split), Content(Full), Content(Full), Content(Full), Content(Full),
    Content(Split), Content(Full), Content(Full), Content(Full), Content(Full),
    Cover
  ]

  /** How an export ends: the file is saved, or a failure is reported and
      nothing is saved. */
  datatype ExportOutcome = Saved(file: Download) | Aborted

  /** What exporting the deck yields: it aborts exactly when a slide's
      capture fails, and otherwise saves a file with one page to start with
      plus one per mounted slide after the first. */
  function ExportResult(elements: seq<Element>): (o: ExportOutcome)
    ensures o.Aborted? <==> exists j :: 0 <= j < |elements| && elements[j] == Mounted(CaptureError)
    ensures o.Saved? ==> o.file.name == FileName
    ensures o.Saved? ==> |o.file.pages| == 1 + MountedAfterFirst(elements, |elements|)
  {
    FailsIff(Placed, elements, |elements|);
    match Process(Placed, elements, |elements|)
    case None => Aborted
    case Some(pages) =>
      PageCount(Placed, elements, |elements|);
      Saved(Download(FileName, pages))
  }

  /** When every slide is mounted and captures, the saved file has one page
      per slide, and page j draws slide j's bitmap scaled to fit and centred. */
  lemma ExportFollowsDeck(elements: seq<Element>)
    requires |elements| >= 1
    requires forall j :: 0 <= j < |elements| ==> elements[j].Mounted? && elements[j].shot.Bitmap?
    ensures ExportResult(elements).Saved?
    ensures |ExportResult(elements).file.pages| == |elements|
    ensures forall j :: 0 <= j < |elements| ==>
      ExportResult(elements).file.pages[j]
        == SlidePage(j, Placed(elements[j].shot.width, elements[j].shot.height))
  {
    DeckOrder(Placed, elements, |elements|);
  }

  /** Exporting the viewer's own deck with every slide captured saves a
      twelve-page file, page j showing slide j. */
  lemma DeckExportsTwelvePages(elements: seq<Element>)
    requires |elements| == |Deck|
    requires forall j :: 0 <= j < |elements| ==> elements[j].Mounted? && elements[j].shot.Bitmap?
    ensures ExportResult(elements).Saved?
    ensures |ExportResult(elements).file.pages| == 12
    ensures forall j :: 0 <= j < 12 ==>
      ExportResult(elements).file.pages[j].ops[1] == Image(j, Placed(elements[j].shot.width, elements[j].shot.height))
  {
    ExportFollowsDeck(elements);
  }

  /** Every saved file is laid out: only its first page can be blank, every
      other page is the background plus one bitmap that fits the page with
      equal opposite margins, and the bitmaps follow deck order. */
  lemma SavedFileLaidOut(elements: seq<Element>)
    requires ExportResult(elements).Saved?
    ensures LaidOut(ExportResult(elements).file.pages, |elements|)
  {
    PlacedCentres();
    ProcessLaidOut(Placed, elements, |elements|);
  }

  /** A failure on slide 2 of 3 leaves nothing to save. */
  lemma FailureOnSecondSlide(w: Pixels, h: Pixels)
    ensures ExportResult([Mounted(Bitmap(w, h)), Mounted(CaptureError), Mounted(Bitmap(w, h))]) == Aborted
  {
    var elements := [Mounted(Bitmap(w, h)), Mounted(CaptureError), Mounted(Bitmap(w, h))];
    assert elements[1] == Mounted(CaptureError);
  }

  /** Draws captured slide i, a w-by-h bitmap, on the document: a new page
      for every slide but the first, the background over the whole page,
      then the bitmap scaled to fit the page and centred on it. */
  method DrawCaptured(pdf: Document, i: nat, w: Pixels, h: Pixels)
    requires pdf.Valid() && pdf.width == A4Width && pdf.height == A4Height
    modifies pdf
    ensures pdf.Valid()
    ensures pdf.pages == DrawSlide(old(pdf.pages), i, Placed(w, h))
    ensures pdf.fillColor == Background
  {
    ghost var before := pdf.pages;
    var at := FitToPage(w as real, h as real, pdf.width, pdf.height);
    if i > 0 {
      pdf.AddPage();
    }
    pdf.SetFillColor(Background);
    pdf.Rect(0.0, 0.0, pdf.width, pdf.height);
    pdf.AddImage(i, at);
    DrawingIsDrawSlide(before, i, at);
  }

  class Viewer {
    /** The slides, fixed for the viewer's lifetime. */
    const deck: seq<SlideKind>
    var currentSlide: int
    var isExporting: bool
    /** The files handed to the browser for download, oldest first. */
    var downloads: seq<Download>

    /** The deck is not empty and the current slide is one of its slides. */
    ghost predicate Valid()
      reads this
    {
      |deck| >= 1 && 0 <= currentSlide < |deck|
    }

    /** The viewer mounts on the first slide, not exporting. */
    constructor (deck: seq<SlideKind>)
      requires |deck| >= 1
      ensures Valid()
      ensures this.deck == deck && currentSlide == 0 && !isExporting && downloads == []
    {
      this.deck := deck;
      currentSlide := 0;
      isExporting := false;
      downloads := [];
    }

    /** Slide i is shown when it is the active one or an export runs. */
    predicate SlideVisible(i: int)
      reads this
    {
      IsVisible(i, currentSlide, isExporting)
    }

    /** The keydown listener: ignored during an export; ArrowRight or Space
        steps forward, ArrowLeft steps back, both clamped to the deck. */
    method KeyDown(e: KeyEvent)
      requires Valid()
      modifies this`currentSlide
      ensures Valid()
      ensures currentSlide == OnKeyDown(e, old(currentSlide), isExporting, |deck|)
    {
      if !isExporting {
        if e.key == "ArrowRight" || e.code == "Space" {
          currentSlide := Advanced(currentSlide, |deck|);
        } else if e.key == "ArrowLeft" {
          currentSlide := Retreated(currentSlide);
        }
      }
    }

    predicate PrevDisabled()
      reads this
    {
      Disabled(PrevButton, currentSlide, |deck|)
    }

    predicate NextDisabled()
      reads this
    {
      Disabled(NextButton, currentSlide, |deck|)
    }

    /** The export button is disabled while an export runs, that is,
        exactly while every slide is shown rather than only the active one. */
    predicate ExportDisabled(): (d: bool)
      reads this
      ensures d ==> forall i :: SlideVisible(i)
      ensures !d ==> forall i :: SlideVisible(i) <==> i == currentSlide
    {
      isExporting
    }

    /** A click on "previous": `c - 1` unless the button is disabled on the
        first slide. The export flag is not consulted. */
    method ClickPrev()
      requires Valid()
      modifies this`currentSlide
      ensures Valid()
      ensures currentSlide == Click(PrevButton, old(currentSlide), |deck|)
    {
      if !PrevDisabled() {
        currentSlide := currentSlide - 1;
      }
    }

    /** A click on "next": `c + 1` unless the button is disabled on the last
        slide. The export flag is not consulted. */
    method ClickNext()
      requires Valid()
      modifies this`currentSlide
      ensures Valid()
      ensures currentSlide == Click(NextButton, old(currentSlide), |deck|)
    {
      if !NextDisabled() {
        currentSlide := currentSlide + 1;
      }
    }

    /** Rasterises slide i. A hidden slide is still laid out, but the
        capture library paints nothing for it and yields a blank image, so
        every call needs slide i to be visible. */
    method Capture(i: int, element: Element) returns (shot: Shot)
      requires 0 <= i < |deck| && SlideVisible(i)
      requires element.Mounted?
      ensures shot == element.shot
    {
      shot := element.shot;
    }

    /** A click on the export button: nothing happens while an export runs. */
    method ClickExport(elements: seq<Element>) returns (outcome: Option<ExportOutcome>)
      requires Valid() && |elements| == |deck|
      modifies this
      ensures Valid()
      ensures old(isExporting) ==> outcome == None && isExporting
      ensures old(isExporting) ==> downloads == old(downloads)
      ensures !old(isExporting) ==> outcome == Some(ExportResult(elements)) && !isExporting
      ensures !old(isExporting) ==>
        downloads == old(downloads) + if outcome.value.Saved? then [outcome.value.file] else []
      ensures currentSlide == old(currentSlide)
    {
      if ExportDisabled() {
        outcome := None;
      } else {
        var result := ExportToPdf(elements);
        outcome := Some(result);
      }
    }

    /** Exports the deck: raise the export flag so that every slide is shown,
        then walk the deck in order. An absent element is skipped; a captured
        slide is scaled to fit a landscape A4 page, centred, and drawn on its
        own page over the background (the first slide on the initial page).
        A failed capture leaves the loop; the file is saved only when the
        whole loop has run. The flag is lowered on every path. */
    method ExportToPdf(elements: seq<Element>) returns (outcome: ExportOutcome)
      requires Valid() && |elements| == |deck|
      modifies this
      ensures Valid()
      ensures outcome == ExportResult(elements)
      ensures !isExporting
      ensures currentSlide == old(currentSlide)
      ensures downloads == old(downloads) + if outcome.Saved? then [outcome.file] else []
    {
      isExporting := true;
      var pdf := new Document();
      var i := 0;
      var aborted := false;
      while i < |deck| && !aborted
        invariant 0 <= i <= |deck|
        invariant Valid() && isExporting
        invariant currentSlide == old(currentSlide) && downloads == old(downloads)
        invariant fresh(pdf) && pdf.Valid()
        invariant pdf.width == A4Width && pdf.height == A4Height
        invariant aborted ==> Process(Placed, elements, |elements|).None?
        invariant !aborted ==> Process(Placed, elements, i) == Some(pdf.pages)
        decreases |deck| - i, !aborted
      {
        var element := elements[i];
        ghost var before := pdf.pages;
        if element.Mounted? {
          var shot := Capture(i, element);
          if shot.CaptureError? {
            FailureIsFinal(Placed, elements, i + 1, |elements|);
            aborted := true;
          } else {
            DrawCaptured(pdf, i, shot.width, shot.height);
            assert Step(Placed, before, i, element) == Some(pdf.pages);
          }
        }
        if !aborted {
          i := i + 1;
        }
      }
      if aborted {
        outcome := Aborted;
      } else {
        var file := pdf.Save(FileName);
        assert file == Download(FileName, pdf.pages);
        downloads := downloads + [file];
        outcome := Saved(file);
      }
      assert outcome == ExportResult(elements);
      isExporting := false;
    }
  }
}
