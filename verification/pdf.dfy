/** The part of the PDF document builder that the export uses: a document of
    pages, each page the list of drawing operations applied to it. Drawing
    always goes to the current page, which is the last one added. */
module Pdf {
  import opened Geometry

  datatype Rgb = Rgb(red: nat, green: nat, blue: nat)

  /** A drawing operation: a filled rectangle, or a slide's bitmap drawn at a
      placement. */
  datatype Op =
    | FillRect(x: real, y: real, width: real, height: real, color: Rgb)
    | Image(slide: nat, at: Placement)

  datatype Page = Page(ops: seq<Op>)

  const BlankPage: Page := Page([])

  /** A saved file: its name and its pages. */
  datatype Download = Download(name: string, pages: seq<Page>)

  /** The pages after `op` is drawn on the current (last) page: earlier pages
      are untouched and the last one gains `op` at its end. */
  function DrawOnLast(pages: seq<Page>, op: Op): (r: seq<Page>)
    requires |pages| > 0
    ensures |r| == |pages|
    ensures r[..|r| - 1] == pages[..|pages| - 1]
    ensures r[|r| - 1].ops == pages[|pages| - 1].ops + [op]
  {
    pages[..|pages| - 1] + [Page(pages[|pages| - 1].ops + [op])]
  }

  /** A landscape A4 document, in millimetres. */
  class Document {
    const width: real
    const height: real
    var pages: seq<Page>
    var fillColor: Rgb

    /** A document always has a current page. */
    ghost predicate Valid()
      reads this
    {
      |pages| > 0
    }

    /** A new document holds one blank page; the fill colour starts black. */
    constructor ()
      ensures Valid()
      ensures width == A4Width && height == A4Height
      ensures pages == [BlankPage] && fillColor == Rgb(0, 0, 0)
    {
      width, height := A4Width, A4Height;
      pages := [BlankPage];
      fillColor := Rgb(0, 0, 0);
    }

    /** Appends a blank page of the same format; it becomes the current page. */
    method AddPage()
      requires Valid()
      modifies this
      ensures Valid()
      ensures pages == old(pages) + [BlankPage] && fillColor == old(fillColor)
    {
      pages := pages + [BlankPage];
    }

    /** Sets the colour that later filled rectangles use. */
    method SetFillColor(c: Rgb)
      requires Valid()
      modifies this
      ensures Valid()
      ensures fillColor == c && pages == old(pages)
    {
      fillColor := c;
    }

    /** Fills a rectangle on the current page with the current fill colour. */
    method Rect(x: real, y: real, w: real, h: real)
      requires Valid()
      modifies this
      ensures Valid()
      ensures pages == DrawOnLast(old(pages), FillRect(x, y, w, h, old(fillColor)))
      ensures fillColor == old(fillColor)
    {
      pages := DrawOnLast(pages, FillRect(x, y, w, h, fillColor));
    }

    /** Draws a slide's bitmap on the current page. */
    method AddImage(slide: nat, at: Placement)
      requires Valid()
      modifies this
      ensures Valid()
      ensures pages == DrawOnLast(old(pages), Image(slide, at))
      ensures fillColor == old(fillColor)
    {
      pages := DrawOnLast(pages, Image(slide, at));
    }

    /** Hands the finished document to the browser as a file download. */
    method Save(name: string) returns (file: Download)
      requires Valid()
      ensures file.name == name && file.pages == pages && |file.pages| > 0
    {
      file := Download(name, pages);
    }
  }
}
