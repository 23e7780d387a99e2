/** Scale-to-fit and centring of a captured slide bitmap on a PDF page.
    All lengths are exact reals: the page in millimetres, the bitmap in pixels. */
module Geometry {

  /** A landscape A4 page in millimetres (ISO 216: 297 mm by 210 mm). */
  const A4Width: real := 297.0
  const A4Height: real := 210.0

  function Min(a: real, b: real): (m: real)
    ensures m <= a && m <= b
    ensures m == a || m == b
  {
    if a <= b then a else b
  }

  /** Where an image is drawn: top-left corner and size, in page units. */
  datatype Placement = Placement(x: real, y: real, width: real, height: real)

  /** The image lies inside the page, and the left margin equals the right one
      and the top margin equals the bottom one. */
  predicate CentredOn(p: Placement, pw: real, ph: real)
  {
    && 0.0 < p.width <= pw && 0.0 < p.height <= ph
    && 0.0 <= p.x && 0.0 <= p.y
    && p.x == pw - (p.x + p.width)
    && p.y == ph - (p.y + p.height)
  }

  /** The uniform scale `min(pw / w, ph / h)` maps the bitmap into the page and
      meets the page edge in at least one direction. */
  lemma RatioFits(w: real, h: real, pw: real, ph: real)
    requires w > 0.0 && h > 0.0 && pw > 0.0 && ph > 0.0
    ensures var r := Min(pw / w, ph / h);
      && r > 0.0
      && w * r <= pw && h * r <= ph
      && (w * r == pw || h * r == ph)
  {
    var r := Min(pw / w, ph / h);
    assert w * (pw / w) == pw;
    assert h * (ph / h) == ph;
    if r == pw / w {
      assert r <= ph / h;
      assert h * r <= h * (ph / h);
    } else {
      assert r <= pw / w;
      assert w * r <= w * (pw / w);
    }
  }

  /** Scale a w-by-h bitmap uniformly so that it fits a pw-by-ph page and
      centre it: the image fits and touches the page on one axis, keeps its
      aspect ratio, and has equal opposite margins. */
  function FitToPage(w: real, h: real, pw: real, ph: real): (p: Placement)
    requires w > 0.0 && h > 0.0 && pw > 0.0 && ph > 0.0
    ensures CentredOn(p, pw, ph)
    ensures p.width == pw || p.height == ph
    ensures p.width * h == p.height * w
  {
    RatioFits(w, h, pw, ph);
    var ratio := Min(pw / w, ph / h);
    var targetWidth := w * ratio;
    var targetHeight := h * ratio;
    Placement((pw - targetWidth) / 2.0, (ph - targetHeight) / 2.0, targetWidth, targetHeight)
  }

  /** No larger uniform scale fits: any scale s that keeps the bitmap inside
      the page gives an image no bigger than the one FitToPage draws. */
  lemma FitIsLargest(w: real, h: real, pw: real, ph: real, s: real)
    requires w > 0.0 && h > 0.0 && pw > 0.0 && ph > 0.0
    requires s > 0.0 && w * s <= pw && h * s <= ph
    ensures w * s <= FitToPage(w, h, pw, ph).width
    ensures h * s <= FitToPage(w, h, pw, ph).height
  {
    var r := Min(pw / w, ph / h);
    assert s <= pw / w by {
      assert w * s / w == s;
      assert w * s / w <= pw / w;
    }
    assert s <= ph / h by {
      assert h * s / h == s;
      assert h * s / h <= ph / h;
    }
    assert s <= r;
    assert w * s <= w * r;
    assert h * s <= h * r;
  }
}
