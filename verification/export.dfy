/** The coordinate mapping of export_pdf_secured in blackoutpdf.py: every
    annotation, stored in pixels of the page's raster, is placed on the PDF
    page with one scale for both axes, page width over raster width.
    Coordinates are exact reals here; PyMuPDF's floats are not modelled. */
module Export {
  import opened Results
  import opened Geometry
  import opened Annotations

  /** A fitz.Rect: top-left (x0, y0), bottom-right (x1, y1). */
  datatype PdfRect = PdfRect(x0: real, y0: real, x1: real, y1: real)

  /** A fitz.Point. */
  datatype PdfPoint = PdfPoint(x: real, y: real)

  /** The float division by a zero raster width. */
  datatype ExportError = ZeroDivisionError

  /** scale = page.rect.width / widget.original_pixmap.width(). */
  function Scale(pageWidth: real, rasterWidth: int): (r: Result<real, ExportError>)
    ensures r.Ok? <==> rasterWidth != 0
    ensures r.Ok? ==> r.value * rasterWidth as real == pageWidth
    ensures r.Ok? && pageWidth > 0.0 && rasterWidth > 0 ==> r.value > 0.0
  {
    if rasterWidth == 0 then Fail(ZeroDivisionError) else Ok(pageWidth / rasterWidth as real)
  }

  /** fitz.Rect(x*s, y*s, (x + width)*s, (y + height)*s) for a QRect. */
  function MapRect(r: Rect, s: real): (q: PdfRect)
    ensures q.x0 == r.x1 as real * s && q.y0 == r.y1 as real * s
    ensures q.x1 - q.x0 == r.Width() as real * s && q.y1 - q.y0 == r.Height() as real * s
  {
    PdfRect(r.x1 as real * s, r.y1 as real * s, (r.x1 + r.Width()) as real * s, (r.y1 + r.Height()) as real * s)
  }

  /** With a positive scale, a rectangle of non-negative size maps to a
      well-ordered PDF rectangle. */
  lemma MapRectOrdered(r: Rect, s: real)
    requires s > 0.0 && r.Width() >= 0 && r.Height() >= 0
    ensures MapRect(r, s).x0 <= MapRect(r, s).x1 && MapRect(r, s).y0 <= MapRect(r, s).y1
  {
    var q := MapRect(r, s);
    assert q.x1 - q.x0 == r.Width() as real * s >= 0.0;
    assert q.y1 - q.y0 == r.Height() as real * s >= 0.0;
  }

  /** Every pixel a rectangle contains, taken as the unit square at that
      pixel, lies inside the mapped PDF rectangle: a redaction box covers
      the whole blackout drawn on screen. */
  lemma MapRectCoversPixels(r: Rect, s: real, px: int, py: int)
    requires s > 0.0 && r.Width() >= 0 && r.Height() >= 0
    requires Contains(r, px, py)
    ensures MapRect(r, s).x0 <= px as real * s && (px + 1) as real * s <= MapRect(r, s).x1
    ensures MapRect(r, s).y0 <= py as real * s && (py + 1) as real * s <= MapRect(r, s).y1
  {
    ContainsInside(r, px, py);
    var q := MapRect(r, s);
    assert r.x1 as real <= px as real && (px + 1) as real <= (r.x1 + r.Width()) as real;
    assert r.y1 as real <= py as real && (py + 1) as real <= (r.y1 + r.Height()) as real;
    MulMonotone(r.x1 as real, px as real, s);
    MulMonotone((px + 1) as real, (r.x1 + r.Width()) as real, s);
    MulMonotone(r.y1 as real, py as real, s);
    MulMonotone((py + 1) as real, (r.y1 + r.Height()) as real, s);
  }

  lemma MulMonotone(a: real, b: real, s: real)
    requires a <= b && s > 0.0
    ensures a * s <= b * s
  {
    assert b * s - a * s == (b - a) * s;
  }

  /** A 300-pixel raster of a 600-point page doubles every coordinate: the
      rectangle at (10, 10) of size 20x20 becomes (20, 20)-(60, 60). */
  lemma MapRectExample()
    ensures Scale(600.0, 300) == Ok(2.0)
    ensures MapRect(RectXYWH(10, 10, 20, 20), 2.0) == PdfRect(20.0, 20.0, 60.0, 60.0)
  {
  }

  /** An image placed by insert_image: where, and which pixmap. */
  datatype ImageOut = ImageOut(box: PdfRect, picture: Shown)

  /** A text box written by insert_textbox. */
  datatype TextOut = TextOut(box: PdfRect, text: string, fontSize: real, color: string)

  /** A sticky note added by add_text_annot. */
  datatype NoteOut = NoteOut(at: PdfPoint, text: string)

  /** What export_pdf_secured writes on one page, in the order it writes it. */
  datatype PageExport = PageExport(
    redactions: seq<PdfRect>,
    highlights: seq<PdfRect>,
    images: seq<ImageOut>,
    texts: seq<TextOut>,
    notes: seq<NoteOut>)

  /** Scale every rectangle of a list. */
  function MapRects(rs: seq<Rect>, s: real): (qs: seq<PdfRect>)
    ensures |qs| == |rs| && forall i :: 0 <= i < |rs| ==> qs[i] == MapRect(rs[i], s)
  {
    seq(|rs|, i requires 0 <= i < |rs| => MapRect(rs[i], s))
  }

  function MapImages(ps: seq<Placed>, s: real): (out: seq<ImageOut>)
    ensures |out| == |ps| && forall i :: 0 <= i < |ps| ==> out[i] == ImageOut(MapRect(ps[i].rect, s), ps[i].shown)
  {
    seq(|ps|, i requires 0 <= i < |ps| => ImageOut(MapRect(ps[i].rect, s), ps[i].shown))
  }

  /** The body of the per-page export loop for one page. The scale fails on
      a zero-width raster. Blackouts become redactions and highlights
      highlight annotations, one for one and in order; signatures then
      stamps become images in the pixmap last drawn; text boxes keep their
      text and have their font size scaled; a comment becomes a note at its
      scaled top-left corner. */
  function ExportPage(p: Page, pageWidth: real, rasterWidth: int): (r: Result<PageExport, ExportError>)
    ensures r.Ok? <==> rasterWidth != 0
    ensures r.Ok? ==> var s := pageWidth / rasterWidth as real;
      && r.value.redactions == MapRects(p.rects, s)
      && r.value.highlights == MapRects(p.highlights, s)
      && r.value.images == MapImages(p.signatures, s) + MapImages(p.stamps, s)
      && |r.value.texts| == |p.textboxes| && |r.value.notes| == |p.comments|
      && (forall i :: 0 <= i < |p.textboxes| ==>
            r.value.texts[i] == TextOut(MapRect(p.textboxes[i].rect, s), p.textboxes[i].text,
                                        p.textboxes[i].fontSize as real * s, p.textboxes[i].color))
      && (forall i :: 0 <= i < |p.comments| ==>
            r.value.notes[i] == NoteOut(PdfPoint(MapRect(p.comments[i].rect, s).x0, MapRect(p.comments[i].rect, s).y0),
                                        p.comments[i].text))
  {
    var s :- Scale(pageWidth, rasterWidth);
    var texts := seq(|p.textboxes|, i requires 0 <= i < |p.textboxes| =>
      TextOut(MapRect(p.textboxes[i].rect, s), p.textboxes[i].text, p.textboxes[i].fontSize as real * s, p.textboxes[i].color));
    var notes := seq(|p.comments|, i requires 0 <= i < |p.comments| =>
      NoteOut(PdfPoint(p.comments[i].rect.x1 as real * s, p.comments[i].rect.y1 as real * s), p.comments[i].text));
    Ok(PageExport(MapRects(p.rects, s), MapRects(p.highlights, s),
                  MapImages(p.signatures, s) + MapImages(p.stamps, s), texts, notes))
  }

  /** On a page of positive width rendered at a positive raster width, every
      pixel of every blackout lies inside the redaction exported for it. */
  lemma ExportRedactsEveryBlackoutPixel(p: Page, pageWidth: real, rasterWidth: int, i: nat, px: int, py: int)
    requires pageWidth > 0.0 && rasterWidth > 0
    requires i < |p.rects| && p.rects[i].Width() >= 0 && p.rects[i].Height() >= 0
    requires Contains(p.rects[i], px, py)
    ensures ExportPage(p, pageWidth, rasterWidth).Ok?
    ensures var s := pageWidth / rasterWidth as real;
      var box := ExportPage(p, pageWidth, rasterWidth).value.redactions[i];
      box.x0 <= px as real * s && (px + 1) as real * s <= box.x1
      && box.y0 <= py as real * s && (py + 1) as real * s <= box.y1
  {
    var s := pageWidth / rasterWidth as real;
    assert s > 0.0;
    MapRectCoversPixels(p.rects[i], s, px, py);
  }

  lemma MapRectsAppend(rs: seq<Rect>, r: Rect, s: real)
    ensures MapRects(rs + [r], s) == MapRects(rs, s) + [MapRect(r, s)]
  {
    assert forall i :: 0 <= i < |rs| + 1 ==> MapRects(rs + [r], s)[i] == (MapRects(rs, s) + [MapRect(r, s)])[i];
  }

  /** Releasing a committed rubber band changes the export by exactly one
      output, last in its list and mapped from the committed band: a
      redaction for a blackout, a highlight annotation for a highlight.
      Nothing else the page exports changes. */
  lemma ExportAfterCommit(p: Page, pageWidth: real, rasterWidth: int)
    requires rasterWidth != 0 && Commits(p)
    ensures ExportPage(p, pageWidth, rasterWidth).Ok? && ExportPage(MouseRelease(p).page, pageWidth, rasterWidth).Ok?
    ensures var s := pageWidth / rasterWidth as real;
      var before := ExportPage(p, pageWidth, rasterWidth).value;
      var after := ExportPage(MouseRelease(p).page, pageWidth, rasterWidth).value;
      && after.redactions == before.redactions + (if p.mode == BlackoutMode then [MapRect(p.current, s)] else [])
      && after.highlights == before.highlights + (if p.mode == HighlightMode then [MapRect(p.current, s)] else [])
      && after.images == before.images && after.texts == before.texts && after.notes == before.notes
  {
    var s := pageWidth / rasterWidth as real;
    var q := MouseRelease(p).page;
    assert q.signatures == p.signatures && q.stamps == p.stamps;
    assert q.textboxes == p.textboxes && q.comments == p.comments;
    if p.mode == BlackoutMode {
      assert q.rects == p.rects + [p.current] && q.highlights == p.highlights;
      MapRectsAppend(p.rects, p.current, s);
    } else {
      assert q.highlights == p.highlights + [p.current] && q.rects == p.rects;
      MapRectsAppend(p.highlights, p.current, s);
    }
  }
}
