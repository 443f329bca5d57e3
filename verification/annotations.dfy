/** The per-page editing state of the PDF editor (class CaviardableImage,
    identical in blackoutpdf.py and BOPDF.py) and the event handlers that
    change it.

    Each handler is a pure function from a page to a new page. A handler that
    records an action in the window's history returns the entries it records
    in a `Step`. Pages are modelled at zoom factor 1.0 with integral event
    positions, so that scaled_rect(r) is r and int(pos / scale) is pos. */
module Annotations {
  import opened Results
  import opened Geometry

  /** The page's mode: Python None, or one of the strings passed to set_mode. */
  datatype Mode = NoMode | BlackoutMode | HighlightMode | CommentMode | SignatureMode | StampMode | TextBoxMode

  /** The two modes in which dragging draws a rectangle. */
  predicate IsDrawingMode(m: Mode) {
    m == BlackoutMode || m == HighlightMode
  }

  /** The kinds of item that can be selected, moved, resized and deleted. */
  datatype ItemKind = TextBoxItem | SignatureItem | StampItem

  /** selected_item: a kind and an index into that kind's list. */
  datatype Selection = Selection(kind: ItemKind, index: nat)

  /** A QPixmap, known by its size. */
  datatype Picture = Picture(width: int, height: int)

  /** The pixmap drawn for a signature or stamp: the one placed, or, after a
      resize, the original scaled (aspect kept) into a box of the given size. */
  datatype Shown = AsPlaced(picture: Picture) | FittedTo(width: int, height: int)

  /** A signature or stamp: (rect, pix, orig). */
  datatype Placed = Placed(rect: Rect, shown: Shown, original: Picture)

  /** A comment: (rect, text). */
  datatype Comment = Comment(rect: Rect, text: string)

  /** A text box: [rect, text, font_size, color]. */
  datatype TextBox = TextBox(rect: Rect, text: string, fontSize: int, color: string)

  /** The "type" of a history entry. */
  datatype ActionKind = BlackoutAction | HighlightAction | CommentAction | SignatureAction | StampAction | TextBoxAction

  /** A history entry {"page": .., "type": .., "data": rect}. */
  datatype HistoryEntry = HistoryEntry(page: nat, kind: ActionKind, data: Rect)

  datatype Button = LeftButton | RightButton | MiddleButton

  /** The state of one CaviardableImage. */
  datatype Page = Page(
    index: nat,
    rects: seq<Rect>,
    highlights: seq<Rect>,
    comments: seq<Comment>,
    signatures: seq<Placed>,
    stamps: seq<Placed>,
    textboxes: seq<TextBox>,
    drawing: bool,
    origin: Option<Point>,
    current: Rect,
    mode: Mode,
    pendingSignature: Option<Picture>,
    pendingSignatureOriginal: Option<Picture>,
    pendingStamp: Option<Picture>,
    pendingStampOriginal: Option<Picture>,
    selected: Option<Selection>,
    offset: Option<Point>,
    handle: Option<Handle>)

  /** What a handler returns: the new page and the history entries it logged. */
  datatype Step = Step(page: Page, logged: seq<HistoryEntry>)

  /** The exceptions a handler can raise. */
  datatype EventError = IndexError | TypeError

  /** A freshly constructed page widget. */
  function NewPage(index: nat): (p: Page)
    ensures p.index == index && ItemCount(p) == 0
    ensures p.mode == NoMode && !p.drawing && p.current == NullRect && p.selected.None?
  {
    Page(index, [], [], [], [], [], [], false, None, NullRect, NoMode, None, None, None, None, None, None, None)
  }

  /** The number of annotations on a page. */
  function ItemCount(p: Page): nat {
    |p.rects| + |p.highlights| + |p.comments| + |p.signatures| + |p.stamps| + |p.textboxes|
  }

  /** The length of the list an action kind records into. */
  function Count(p: Page, k: ActionKind): nat {
    match k
    case BlackoutAction => |p.rects|
    case HighlightAction => |p.highlights|
    case CommentAction => |p.comments|
    case SignatureAction => |p.signatures|
    case StampAction => |p.stamps|
    case TextBoxAction => |p.textboxes|
  }

  /** The history kind of a selectable item. */
  function ActionOf(k: ItemKind): ActionKind {
    match k
    case TextBoxItem => TextBoxAction
    case SignatureItem => SignatureAction
    case StampItem => StampAction
  }

  /** Both pages hold the same annotations. */
  predicate SameItems(p: Page, q: Page) {
    && p.rects == q.rects && p.highlights == q.highlights && p.comments == q.comments
    && p.signatures == q.signatures && p.stamps == q.stamps && p.textboxes == q.textboxes
  }

  /** Every list other than the one of kind `k` is the same on both pages. */
  predicate SameExcept(p: Page, q: Page, k: ActionKind) {
    && (k != BlackoutAction ==> q.rects == p.rects)
    && (k != HighlightAction ==> q.highlights == p.highlights)
    && (k != CommentAction ==> q.comments == p.comments)
    && (k != SignatureAction ==> q.signatures == p.signatures)
    && (k != StampAction ==> q.stamps == p.stamps)
    && (k != TextBoxAction ==> q.textboxes == p.textboxes)
  }

  /** Every list of `p` is a prefix of the same list of `q`. */
  predicate Grows(p: Page, q: Page) {
    && p.rects <= q.rects && p.highlights <= q.highlights && p.comments <= q.comments
    && p.signatures <= q.signatures && p.stamps <= q.stamps && p.textboxes <= q.textboxes
  }

  /** `q` is `p` with one item appended to the list of `e`'s kind, and that
      item's rectangle is the one `e` records. */
  predicate AppendedFor(p: Page, q: Page, e: HistoryEntry) {
    && SameExcept(p, q, e.kind)
    && Grows(p, q)
    && Count(q, e.kind) == Count(p, e.kind) + 1
    && match e.kind
       case BlackoutAction => q.rects[|p.rects|] == e.data
       case HighlightAction => q.highlights[|p.highlights|] == e.data
       case CommentAction => q.comments[|p.comments|].rect == e.data
       case SignatureAction => q.signatures[|p.signatures|].rect == e.data
       case StampAction => q.stamps[|p.stamps|].rect == e.data
       case TextBoxAction => q.textboxes[|p.textboxes|].rect == e.data
  }

  // ----- set_mode -----

  /** set_mode(mode): switches mode and drops any selection, handle and
      drag offset; the annotations and the drawing state are untouched. */
  function SetMode(p: Page, m: Mode): (q: Page)
    ensures q.mode == m && q.selected.None? && q.handle.None? && q.offset.None?
    ensures SameItems(p, q) && q.index == p.index
    ensures q.drawing == p.drawing && q.current == p.current && q.origin == p.origin
    ensures q.pendingSignature == p.pendingSignature && q.pendingStamp == p.pendingStamp
  {
    p.(mode := m, selected := None, handle := None, offset := None)
  }

  /** Only the last set_mode matters. */
  lemma SetModeLastWins(p: Page, a: Mode, b: Mode)
    ensures SetMode(SetMode(p, a), b) == SetMode(p, b)
  {
  }

  // ----- item_at_pos -----

  /** The rectangles of one selectable kind, in list order. */
  function KindRects(p: Page, k: ItemKind): (rs: seq<Rect>)
    ensures |rs| == Count(p, ActionOf(k))
  {
    match k
    case TextBoxItem => seq(|p.textboxes|, i requires 0 <= i < |p.textboxes| => p.textboxes[i].rect)
    case SignatureItem => seq(|p.signatures|, i requires 0 <= i < |p.signatures| => p.signatures[i].rect)
    case StampItem => seq(|p.stamps|, i requires 0 <= i < |p.stamps| => p.stamps[i].rect)
  }

  /** rs[i] contains the point and no later rectangle (drawn above it) does. */
  ghost predicate TopmostAt(rs: seq<Rect>, i: int, x: int, y: int) {
    && 0 <= i < |rs|
    && Contains(rs[i], x, y)
    && forall j :: i < j < |rs| ==> !Contains(rs[j], x, y)
  }

  /** No rectangle of rs contains the point. */
  ghost predicate NoneAt(rs: seq<Rect>, x: int, y: int) {
    forall j :: 0 <= j < |rs| ==> !Contains(rs[j], x, y)
  }

  /** The reversed scan of one list: the highest index containing the point. */
  function Topmost(rs: seq<Rect>, x: int, y: int): (r: Option<nat>)
    ensures r.Some? ==> TopmostAt(rs, r.value, x, y)
    ensures r.None? <==> NoneAt(rs, x, y)
    decreases |rs|
  {
    if |rs| == 0 then None
    else if Contains(rs[|rs| - 1], x, y) then Some(|rs| - 1)
    else Topmost(rs[..|rs| - 1], x, y)
  }

  /** At most one index is topmost at a point. */
  lemma TopmostUnique(rs: seq<Rect>, i: int, j: int, x: int, y: int)
    requires TopmostAt(rs, i, x, y) && TopmostAt(rs, j, x, y)
    ensures i == j
  {
  }

  /** Search order of item_at_pos: text boxes, then signatures, then stamps. */
  function Priority(k: ItemKind): nat {
    match k
    case TextBoxItem => 0
    case SignatureItem => 1
    case StampItem => 2
  }

  /** The item item_at_pos returns: its kind, index and rectangle. */
  datatype Hit = Hit(kind: ItemKind, index: nat, rect: Rect)

  /** item_at_pos(x, y): the topmost text box containing the point, else the
      topmost signature, else the topmost stamp, else nothing. */
  function ItemAt(p: Page, x: int, y: int): (r: Option<Hit>)
    ensures r.None? <==> forall k: ItemKind :: NoneAt(KindRects(p, k), x, y)
    ensures r.Some? ==> TopmostAt(KindRects(p, r.value.kind), r.value.index, x, y)
    ensures r.Some? ==> r.value.rect == KindRects(p, r.value.kind)[r.value.index]
    ensures r.Some? ==> forall k: ItemKind :: Priority(k) < Priority(r.value.kind) ==> NoneAt(KindRects(p, k), x, y)
  {
    var t := Topmost(KindRects(p, TextBoxItem), x, y);
    var s := Topmost(KindRects(p, SignatureItem), x, y);
    var m := Topmost(KindRects(p, StampItem), x, y);
    if t.Some? then Some(Hit(TextBoxItem, t.value, KindRects(p, TextBoxItem)[t.value]))
    else if s.Some? then Some(Hit(SignatureItem, s.value, KindRects(p, SignatureItem)[s.value]))
    else if m.Some? then Some(Hit(StampItem, m.value, KindRects(p, StampItem)[m.value]))
    else None
  }

  // ----- mousePressEvent -----

  /** Python's str.isspace() for one character. */
  predicate IsSpace(c: char) {
    || c == ' ' || ('\t' <= c <= '\r') || ('\U{1C}' <= c <= '\U{1F}')
    || c == '\U{85}' || c == '\U{A0}' || c == '\U{1680}' || ('\U{2000}' <= c <= '\U{200A}')
    || c == '\U{2028}' || c == '\U{2029}' || c == '\U{202F}' || c == '\U{205F}' || c == '\U{3000}'
  }

  /** `not s.strip()`: the text is empty or all whitespace. */
  predicate IsBlank(s: string) {
    forall i :: 0 <= i < |s| ==> IsSpace(s[i])
  }

  /** str.strip() with no argument: the text without its leading and
      trailing whitespace. What is left neither starts nor ends with
      whitespace; StripCutsBlankEnds shows it is a slice of the text with
      only whitespace cut off. */
  function Strip(s: string): (t: string)
    ensures |t| <= |s|
    ensures |t| > 0 ==> !IsSpace(t[0]) && !IsSpace(t[|t| - 1])
    decreases |s|
  {
    if |s| == 0 then s
    else if IsSpace(s[0]) then Strip(s[1..])
    else if IsSpace(s[|s| - 1]) then Strip(s[..|s| - 1])
    else s
  }

  /** One step of StripCutsBlankEnds: a leading space joins the cut prefix. */
  lemma StripFrontStep(s: string, i: nat, j: nat)
    requires 0 < |s| && IsSpace(s[0]) && i <= j <= |s| - 1
    requires Strip(s[1..]) == s[1..][i..j] && IsBlank(s[1..][..i]) && IsBlank(s[1..][j..])
    ensures Strip(s) == s[i + 1..j + 1] && IsBlank(s[..i + 1]) && IsBlank(s[j + 1..])
  {
    assert s[1..][i..j] == s[i + 1..j + 1];
    assert s[1..][j..] == s[j + 1..];
    forall k | 0 < k < i + 1 ensures IsSpace(s[k]) {
      assert s[k] == s[1..][..i][k - 1];
    }
  }

  /** One step of StripCutsBlankEnds: a trailing space joins the cut suffix. */
  lemma StripBackStep(s: string, i: nat, j: nat)
    requires 0 < |s| && !IsSpace(s[0]) && IsSpace(s[|s| - 1]) && i <= j <= |s| - 1
    requires var init := s[..|s| - 1];
      Strip(init) == init[i..j] && IsBlank(init[..i]) && IsBlank(init[j..])
    ensures Strip(s) == s[i..j] && IsBlank(s[..i]) && IsBlank(s[j..])
  {
    var init := s[..|s| - 1];
    assert init[i..j] == s[i..j];
    assert init[..i] == s[..i];
    forall k | j <= k < |s| - 1 ensures IsSpace(s[k]) {
      assert s[k] == init[j..][k - j];
    }
  }

  /** What strip() returns is the text itself with a blank prefix and a
      blank suffix cut off. With Strip's own ensures (no whitespace at either
      end of a non-empty result) this pins the result to the one slice
      str.strip() returns. */
  lemma {:induction false} StripCutsBlankEnds(s: string)
    ensures exists i, j :: 0 <= i <= j <= |s| && Strip(s) == s[i..j] && IsBlank(s[..i]) && IsBlank(s[j..])
    decreases |s|
  {
    if |s| == 0 {
      assert Strip(s) == s[0..0] && IsBlank(s[..0]) && IsBlank(s[0..]);
    } else if IsSpace(s[0]) {
      StripCutsBlankEnds(s[1..]);
      var i, j :| 0 <= i <= j <= |s[1..]| && Strip(s[1..]) == s[1..][i..j]
        && IsBlank(s[1..][..i]) && IsBlank(s[1..][j..]);
      StripFrontStep(s, i, j);
    } else if IsSpace(s[|s| - 1]) {
      StripCutsBlankEnds(s[..|s| - 1]);
      var i, j :| 0 <= i <= j <= |s[..|s| - 1]| && Strip(s[..|s| - 1]) == s[..|s| - 1][i..j]
        && IsBlank(s[..|s| - 1][..i]) && IsBlank(s[..|s| - 1][j..]);
      StripBackStep(s, i, j);
    } else {
      assert Strip(s) == s[0..|s|] && IsBlank(s[..0]) && IsBlank(s[|s|..]);
    }
  }

  /** A text is blank exactly when stripping it leaves nothing, so the
      `text.strip()` tests of the dialogs are modelled by IsBlank. */
  lemma {:induction false} BlankIffStripEmpty(s: string)
    ensures IsBlank(s) <==> Strip(s) == ""
    decreases |s|
  {
    if |s| == 0 {
    } else if IsSpace(s[0]) {
      BlankIffStripEmpty(s[1..]);
      assert IsBlank(s) <==> IsBlank(s[1..]) by {
        if IsBlank(s[1..]) {
          forall i | 0 <= i < |s| ensures IsSpace(s[i]) {
            if i > 0 { assert s[i] == s[1..][i - 1]; }
          }
        }
      }
    } else if IsSpace(s[|s| - 1]) {
      BlankIffStripEmpty(s[..|s| - 1]);
    } else {
      assert !IsSpace(s[0]);
    }
  }

  /** The side of a comment marker. */
  const CommentSize := 20
  /** Width of a new text box. */
  const TextBoxWidth := 200
  /** Font size used when the size dialog is cancelled. */
  const DefaultFontSize := 17
  /** Colour of a new text box. */
  const TextColor := "#191919"

  /** A size QInputDialog.getInt(.., 17, 8, 80) can return. */
  type FontSize = n: int | 8 <= n <= 80 witness DefaultFontSize

  /** Pressing on an item with no mode selects it, grabs the handle under the
      cursor if any, and otherwise remembers the offset of the cursor from
      the item's top-left corner. */
  function SelectAt(p: Page, hit: Hit, x: int, y: int): (q: Page)
    ensures q.selected == Some(Selection(hit.kind, hit.index))
    ensures q.handle.Some? ==> Contains(HandleRect(hit.rect, q.handle.value), x, y)
    ensures q.handle.None? <==> q.offset.Some?
    ensures q.offset.Some? ==> Point(hit.rect.x1 + q.offset.value.x, hit.rect.y1 + q.offset.value.y) == Point(x, y)
    ensures SameItems(p, q) && q.mode == p.mode
  {
    var h := HandleAt(hit.rect, x, y);
    p.(selected := Some(Selection(hit.kind, hit.index)), handle := h,
       offset := if h.None? then Some(Point(x - hit.rect.x1, y - hit.rect.y1)) else None)
  }

  /** Comment mode: a non-blank answer adds a 20x20 comment at the click. */
  function AddComment(p: Page, x: int, y: int, text: string): (r: Step)
    ensures |r.logged| == 1 && r.logged[0].kind == CommentAction && r.logged[0].page == p.index
    ensures AppendedFor(p, r.page, r.logged[0])
    ensures r.page.comments[|p.comments|] == Comment(r.logged[0].data, text)
    ensures r.logged[0].data.TopLeft() == Point(x, y)
    ensures r.logged[0].data.Width() == CommentSize && r.logged[0].data.Height() == CommentSize
    ensures r.page.mode == p.mode
  {
    var rect := RectXYWH(x, y, CommentSize, CommentSize);
    Step(p.(comments := p.comments + [Comment(rect, text)]), [HistoryEntry(p.index, CommentAction, rect)])
  }

  /** Signature mode with a pending signature: the click places it, its
      top-left at the click and its size the pending pixmap's, logs one entry,
      and leaves placement mode. */
  function PlaceSignature(p: Page, x: int, y: int): (r: Step)
    requires p.pendingSignature.Some? && p.pendingSignatureOriginal.Some?
    ensures |r.logged| == 1 && r.logged[0].kind == SignatureAction && r.logged[0].page == p.index
    ensures AppendedFor(p, r.page, r.logged[0])
    ensures r.page.signatures[|p.signatures|]
            == Placed(r.logged[0].data, AsPlaced(p.pendingSignature.value), p.pendingSignatureOriginal.value)
    ensures r.logged[0].data.TopLeft() == Point(x, y)
    ensures r.logged[0].data.Width() == p.pendingSignature.value.width
    ensures r.logged[0].data.Height() == p.pendingSignature.value.height
    ensures r.page.mode == NoMode && r.page.pendingSignature.None? && r.page.pendingSignatureOriginal.None?
  {
    var sig := p.pendingSignature.value;
    var rect := RectXYWH(x, y, sig.width, sig.height);
    Step(p.(signatures := p.signatures + [Placed(rect, AsPlaced(sig), p.pendingSignatureOriginal.value)],
            pendingSignature := None, pendingSignatureOriginal := None, mode := NoMode),
         [HistoryEntry(p.index, SignatureAction, rect)])
  }

  /** Stamp mode with a pending stamp: as for signatures. */
  function PlaceStamp(p: Page, x: int, y: int): (r: Step)
    requires p.pendingStamp.Some? && p.pendingStampOriginal.Some?
    ensures |r.logged| == 1 && r.logged[0].kind == StampAction && r.logged[0].page == p.index
    ensures AppendedFor(p, r.page, r.logged[0])
    ensures r.page.stamps[|p.stamps|] == Placed(r.logged[0].data, AsPlaced(p.pendingStamp.value), p.pendingStampOriginal.value)
    ensures r.logged[0].data.TopLeft() == Point(x, y)
    ensures r.logged[0].data.Width() == p.pendingStamp.value.width
    ensures r.logged[0].data.Height() == p.pendingStamp.value.height
    ensures r.page.mode == NoMode && r.page.pendingStamp.None? && r.page.pendingStampOriginal.None?
  {
    var st := p.pendingStamp.value;
    var rect := RectXYWH(x, y, st.width, st.height);
    Step(p.(stamps := p.stamps + [Placed(rect, AsPlaced(st), p.pendingStampOriginal.value)],
            pendingStamp := None, pendingStampOriginal := None, mode := NoMode),
         [HistoryEntry(p.index, StampAction, rect)])
  }

  /** Text-box mode with a non-blank answer: a 200-wide box, twice the font
      size high, at the click. The size defaults to 17 when its dialog is
      cancelled. */
  function AddTextBox(p: Page, x: int, y: int, text: string, font: Option<FontSize>): (r: Step)
    ensures |r.logged| == 1 && r.logged[0].kind == TextBoxAction && r.logged[0].page == p.index
    ensures AppendedFor(p, r.page, r.logged[0])
    ensures r.page.textboxes[|p.textboxes|].text == text
    ensures r.page.textboxes[|p.textboxes|].fontSize == font.GetOr(DefaultFontSize)
    ensures r.logged[0].data.TopLeft() == Point(x, y)
    ensures r.logged[0].data.Width() == TextBoxWidth
    ensures r.logged[0].data.Height() == 2 * font.GetOr(DefaultFontSize)
    ensures r.page.mode == NoMode
  {
    var size: int := font.GetOr(DefaultFontSize);
    var rect := RectXYWH(x, y, TextBoxWidth, size * 2);
    Step(p.(textboxes := p.textboxes + [TextBox(rect, text, size, TextColor)], mode := NoMode),
         [HistoryEntry(p.index, TextBoxAction, rect)])
  }

  /** Blackout or highlight mode, left button: start a rubber band of one
      pixel at the click. */
  function StartDrawing(p: Page, x: int, y: int): (q: Page)
    ensures q.drawing && q.origin == Some(Point(x, y))
    ensures q.current.TopLeft() == Point(x, y) && q.current.Width() == 1 && q.current.Height() == 1
    ensures SameItems(p, q) && q.mode == p.mode && q.selected == p.selected
  {
    var o := Point(x, y);
    p.(origin := Some(o), current := RectCorners(o, o), drawing := true)
  }

  /** mousePressEvent at (x, y). `text` is the answer of the text dialog
      (None when cancelled) and `font` that of the font-size dialog; they are
      read only in comment and text-box mode. A press never removes an
      annotation, adds at most one, and logs exactly one history entry for
      what it adds. */
  function MousePress(p: Page, x: int, y: int, button: Button, text: Option<string>, font: Option<FontSize>): (r: Step)
    ensures Grows(p, r.page) && r.page.index == p.index
    ensures |r.logged| <= 1 && ItemCount(r.page) == ItemCount(p) + |r.logged|
    ensures forall e :: e in r.logged ==> e.page == p.index
    ensures |r.logged| == 1 ==> AppendedFor(p, r.page, r.logged[0])
  {
    var hit := ItemAt(p, x, y);
    if hit.Some? && p.mode == NoMode then Step(SelectAt(p, hit.value, x, y), [])
    else PressInMode(p, x, y, button, text, font)
  }

  /** A press that did not select an item, by mode: placing modes add one
      item and log it; drawing modes start the rubber band on a left press. */
  function PressInMode(p: Page, x: int, y: int, button: Button, text: Option<string>, font: Option<FontSize>): (r: Step)
    ensures Grows(p, r.page) && r.page.index == p.index
    ensures |r.logged| <= 1 && ItemCount(r.page) == ItemCount(p) + |r.logged|
    ensures forall e :: e in r.logged ==> e.page == p.index
    ensures |r.logged| == 1 ==> AppendedFor(p, r.page, r.logged[0])
  {
    if p.mode in {CommentMode, SignatureMode, StampMode, TextBoxMode} then Place(p, x, y, text, font)
    else if IsDrawingMode(p.mode) && button == LeftButton then Step(StartDrawing(p, x, y), [])
    else Step(p, [])
  }

  /** A press in one of the placing modes. A comment or text box needs a
      non-blank answer, and a signature or stamp needs a pending image;
      otherwise nothing is placed (a text box press still leaves the mode). */
  function Place(p: Page, x: int, y: int, text: Option<string>, font: Option<FontSize>): (r: Step)
    requires p.mode in {CommentMode, SignatureMode, StampMode, TextBoxMode}
    ensures Grows(p, r.page) && r.page.index == p.index
    ensures |r.logged| <= 1 && ItemCount(r.page) == ItemCount(p) + |r.logged|
    ensures forall e :: e in r.logged ==> e.page == p.index
    ensures |r.logged| == 1 ==> AppendedFor(p, r.page, r.logged[0])
    ensures |r.logged| == 0 ==> SameItems(p, r.page)
  {
    match p.mode
    case CommentMode =>
      if text.Some? && !IsBlank(text.value) then Logged(p, AddComment(p, x, y, text.value)) else Step(p, [])
    case SignatureMode =>
      if p.pendingSignature.Some? && p.pendingSignatureOriginal.Some? then Logged(p, PlaceSignature(p, x, y)) else Step(p, [])
    case StampMode =>
      if p.pendingStamp.Some? && p.pendingStampOriginal.Some? then Logged(p, PlaceStamp(p, x, y)) else Step(p, [])
    case TextBoxMode =>
      if text.Some? && !IsBlank(text.value) then Logged(p, AddTextBox(p, x, y, text.value, font)) else Step(p.(mode := NoMode), [])
  }

  /** In comment mode, a click with a non-blank answer appends a 20x20
      comment at the click and logs it, whatever items lie under the click. */
  lemma CommentClickAppends(p: Page, x: int, y: int, button: Button, text: string)
    requires p.mode == CommentMode && !IsBlank(text)
    ensures var r := RectXYWH(x, y, CommentSize, CommentSize);
      MousePress(p, x, y, button, Some(text), None)
        == Step(p.(comments := p.comments + [Comment(r, text)]), [HistoryEntry(p.index, CommentAction, r)])
  {
  }

  /** A page that had one item appended grew by exactly that item. */
  lemma AppendedCounts(p: Page, q: Page, e: HistoryEntry)
    requires AppendedFor(p, q, e)
    ensures ItemCount(q) == ItemCount(p) + 1
  {
    match e.kind
    case BlackoutAction =>
    case HighlightAction =>
    case CommentAction =>
    case SignatureAction =>
    case StampAction =>
    case TextBoxAction =>
  }

  /** `st` after noting that it grew its page by one item. */
  function Logged(p: Page, st: Step): (r: Step)
    requires |st.logged| == 1 && AppendedFor(p, st.page, st.logged[0])
    ensures r == st && ItemCount(r.page) == ItemCount(p) + 1
  {
    AppendedCounts(p, st.page, st.logged[0]);
    st
  }

  // ----- mouseMoveEvent -----

  /** Replace the rectangle of the selected item; a resized signature or stamp
      is redrawn from its original fitted to the new size. */
  function SetItemRect(p: Page, s: Selection, r: Rect, refit: bool): (q: Page)
    requires s.index < |KindRects(p, s.kind)|
    ensures KindRects(q, s.kind) == KindRects(p, s.kind)[s.index := r]
    ensures SameExcept(p, q, ActionOf(s.kind)) && Count(q, ActionOf(s.kind)) == Count(p, ActionOf(s.kind))
    ensures q.selected == p.selected && q.handle == p.handle && q.offset == p.offset
  {
    var i := s.index;
    match s.kind
    case TextBoxItem =>
      var q := p.(textboxes := p.textboxes[i := p.textboxes[i].(rect := r)]);
      assert KindRects(q, s.kind) == KindRects(p, s.kind)[i := r];
      q
    case SignatureItem =>
      var prev := p.signatures[i];
      var q := p.(signatures := p.signatures[i := Placed(r, if refit then FittedTo(r.Width(), r.Height()) else prev.shown, prev.original)]);
      assert KindRects(q, s.kind) == KindRects(p, s.kind)[i := r];
      q
    case StampItem =>
      var prev := p.stamps[i];
      var q := p.(stamps := p.stamps[i := Placed(r, if refit then FittedTo(r.Width(), r.Height()) else prev.shown, prev.original)]);
      assert KindRects(q, s.kind) == KindRects(p, s.kind)[i := r];
      q
  }

  /** mouseMoveEvent at (x, y). With a selection and no mode, the selected
      item is resized by its handle (see Geometry.Resize) or dragged so that
      the grab offset is kept; an out-of-range selection raises IndexError.
      Otherwise, while drawing, the rubber band becomes the normalised
      rectangle between the press point and the cursor; as Qt 6 reads
      reversed corners as exclusive edges, a band dragged leftwards (upwards)
      is |dx| - 1 (|dy| - 1) pixels across rather than |dx| + 1, and contains
      neither end point. Nothing is ever added or removed. */
  function MouseMove(p: Page, x: int, y: int): (r: Result<Page, EventError>)
    ensures r.Fail? <==>
      if p.selected.Some? && p.mode == NoMode then p.selected.value.index >= |KindRects(p, p.selected.value.kind)|
      else p.drawing && IsDrawingMode(p.mode) && p.origin.None?
    ensures r.Ok? ==> forall k: ActionKind :: Count(r.value, k) == Count(p, k)
    ensures r.Ok? ==> r.value.rects == p.rects && r.value.highlights == p.highlights && r.value.comments == p.comments
    ensures r.Ok? && p.selected.Some? && p.mode == NoMode && p.handle.Some? ==>
      var s := p.selected.value;
      && SameExcept(p, r.value, ActionOf(s.kind))
      && Opposite(KindRects(r.value, s.kind)[s.index], p.handle.value) == Opposite(KindRects(p, s.kind)[s.index], p.handle.value)
    ensures r.Ok? && p.selected.Some? && p.mode == NoMode && p.handle.None? && p.offset.Some? ==>
      var s := p.selected.value;
      var moved := KindRects(r.value, s.kind)[s.index];
      var prev := KindRects(p, s.kind)[s.index];
      && SameExcept(p, r.value, ActionOf(s.kind))
      && moved.TopLeft() == Point(x - p.offset.value.x, y - p.offset.value.y)
      && moved.Width() == prev.Width() && moved.Height() == prev.Height()
    ensures r.Ok? && !(p.selected.Some? && p.mode == NoMode) && p.drawing && IsDrawingMode(p.mode) ==>
      && SameItems(p, r.value)
      && r.value.current.Width() == Abs(x - p.origin.value.x + 1)
      && r.value.current.Height() == Abs(y - p.origin.value.y + 1)
      && (Contains(r.value.current, x, y) <==> x >= p.origin.value.x && y >= p.origin.value.y)
      && (Contains(r.value.current, p.origin.value.x, p.origin.value.y) <==> x >= p.origin.value.x && y >= p.origin.value.y)
  {
    if p.selected.Some? && p.mode == NoMode then
      var s := p.selected.value;
      if s.index >= |KindRects(p, s.kind)| then Fail(IndexError)
      else
        var prev := KindRects(p, s.kind)[s.index];
        if p.handle.Some? then Ok(SetItemRect(p, s, Resize(prev, p.handle.value, x, y), true))
        else if p.offset.Some? then Ok(SetItemRect(p, s, MoveTo(prev, x - p.offset.value.x, y - p.offset.value.y), false))
        else Ok(p)
    else if p.drawing && IsDrawingMode(p.mode) then
      if p.origin.None? then Fail(TypeError)
      else Ok(p.(current := Normalized(RectCorners(p.origin.value, Point(x, y)))))
    else Ok(p)
  }

  // ----- mouseReleaseEvent -----

  /** A drawn rectangle is kept only if both sides exceed this many pixels. */
  const CommitMin := 5

  /** Whether releasing the mouse now ends a drag of a selected item. */
  predicate EndsItemDrag(p: Page) {
    p.selected.Some? && (p.handle.Some? || p.offset.Some?)
  }

  /** Whether releasing the mouse now commits the rubber band. */
  predicate Commits(p: Page) {
    && !EndsItemDrag(p) && p.drawing && IsDrawingMode(p.mode)
    && p.current.Width() > CommitMin && p.current.Height() > CommitMin
  }

  /** mouseReleaseEvent. Ending an item drag drops the handle and offset but
      keeps the selection. Otherwise a rubber band wider and higher than 5
      pixels is appended to rects (blackout) or highlights (highlight) with
      one history entry; the rubber band is reset whether or not it was kept,
      and the selection is dropped. */
  function MouseRelease(p: Page): (r: Step)
    ensures r.page.index == p.index && r.page.mode == p.mode
    ensures |r.logged| == (if Commits(p) then 1 else 0)
    ensures Commits(p) ==>
      && r.logged[0].page == p.index && r.logged[0].data == p.current
      && r.logged[0].kind == (if p.mode == BlackoutMode then BlackoutAction else HighlightAction)
      && AppendedFor(p, r.page, r.logged[0])
    ensures !Commits(p) ==> SameItems(p, r.page)
    ensures EndsItemDrag(p) ==> r.page.selected == p.selected && r.page.handle.None? && r.page.offset.None?
    ensures !EndsItemDrag(p) ==> r.page.selected.None? && r.page.handle.None? && r.page.offset.None?
    ensures !EndsItemDrag(p) && p.drawing && IsDrawingMode(p.mode) ==> !r.page.drawing && r.page.current == NullRect
  {
    if EndsItemDrag(p) then
      Step(p.(handle := None, offset := None), [])
    else
      var done := if p.drawing && IsDrawingMode(p.mode) then
                    var kept := if !Commits(p) then Step(p, [])
                                else if p.mode == BlackoutMode then
                                  Step(p.(rects := p.rects + [p.current]), [HistoryEntry(p.index, BlackoutAction, p.current)])
                                else
                                  Step(p.(highlights := p.highlights + [p.current]), [HistoryEntry(p.index, HighlightAction, p.current)]);
                    Step(kept.page.(current := NullRect, drawing := false), kept.logged)
                  else Step(p, []);
      Step(done.page.(selected := None, handle := None, offset := None), done.logged)
  }

  /** Whether the band drawn so far will be kept, in terms of the drag from
      the press point: on each axis at least 5 forward (right, down) or at
      least 7 back (left, up). */
  lemma CommitsAfterMove(p: Page, x: int, y: int)
    requires p.drawing && IsDrawingMode(p.mode) && p.origin.Some? && !EndsItemDrag(p)
    ensures MouseMove(p, x, y).Ok?
    ensures Commits(MouseMove(p, x, y).value) <==>
      && (x - p.origin.value.x >= CommitMin || x - p.origin.value.x <= -(CommitMin + 2))
      && (y - p.origin.value.y >= CommitMin || y - p.origin.value.y <= -(CommitMin + 2))
  {
  }

  /** A whole drawing gesture: press at a point in blackout or highlight mode,
      drag to another, release. The rectangle between the two points is kept
      exactly when it spans more than 5 pixels each way. Because of how
      normalized() treats reversed corners, that takes a drag of at least 5
      pixels rightwards (downwards) but of at least 7 leftwards (upwards). */
  lemma DrawGesture(p: Page, x0: int, y0: int, x1: int, y1: int)
    requires IsDrawingMode(p.mode) && p.selected.None?
    ensures MousePress(p, x0, y0, LeftButton, None, None).logged == []
    ensures MouseMove(MousePress(p, x0, y0, LeftButton, None, None).page, x1, y1).Ok?
    ensures
      var moved := MouseMove(MousePress(p, x0, y0, LeftButton, None, None).page, x1, y1).value;
      var r := MouseRelease(moved);
      && (|r.logged| == 1 <==>
            && (x1 - x0 >= CommitMin || x1 - x0 <= -(CommitMin + 2))
            && (y1 - y0 >= CommitMin || y1 - y0 <= -(CommitMin + 2)))
      && (|r.logged| == 1 ==> r.logged[0].data == Normalized(RectCorners(Point(x0, y0), Point(x1, y1))))
      && (|r.logged| == 0 ==> SameItems(p, r.page))
  {
    var pressed := MousePress(p, x0, y0, LeftButton, None, None);
    assert pressed.page == StartDrawing(p, x0, y0);
    CommitsAfterMove(pressed.page, x1, y1);
    var moved := MouseMove(pressed.page, x1, y1).value;
    assert moved.current == Normalized(RectCorners(Point(x0, y0), Point(x1, y1)));
  }

  /** The asymmetry at its smallest: in a drawing mode, a drag from
      (100, 100) to (106, 106) is kept, while one to (94, 94), as far the
      other way, leaves a 5 by 5 band and is dropped. */
  lemma DragDirectionMatters(p: Page)
    requires IsDrawingMode(p.mode) && p.selected.None?
    ensures var pressed := MousePress(p, 100, 100, LeftButton, None, None).page;
      && MouseMove(pressed, 106, 106).Ok? && MouseMove(pressed, 94, 94).Ok?
      && |MouseRelease(MouseMove(pressed, 106, 106).value).logged| == 1
      && |MouseRelease(MouseMove(pressed, 94, 94).value).logged| == 0
  {
    DrawGesture(p, 100, 100, 106, 106);
    DrawGesture(p, 100, 100, 94, 94);
  }

  // ----- keyPressEvent -----

  /** Delete item `s` from its own list. */
  function RemoveItem(p: Page, s: Selection): (q: Page)
    requires s.index < |KindRects(p, s.kind)|
    ensures SameExcept(p, q, ActionOf(s.kind))
    ensures Count(q, ActionOf(s.kind)) == Count(p, ActionOf(s.kind)) - 1
    ensures s.kind == TextBoxItem ==> q.textboxes == p.textboxes[..s.index] + p.textboxes[s.index + 1..]
    ensures s.kind == SignatureItem ==> q.signatures == p.signatures[..s.index] + p.signatures[s.index + 1..]
    ensures s.kind == StampItem ==> q.stamps == p.stamps[..s.index] + p.stamps[s.index + 1..]
    ensures KindRects(q, s.kind) == KindRects(p, s.kind)[..s.index] + KindRects(p, s.kind)[s.index + 1..]
  {
    var i := s.index;
    match s.kind
    case TextBoxItem =>
      var q := p.(textboxes := p.textboxes[..i] + p.textboxes[i + 1..]);
      assert KindRects(q, s.kind) == KindRects(p, s.kind)[..i] + KindRects(p, s.kind)[i + 1..];
      q
    case SignatureItem =>
      var q := p.(signatures := p.signatures[..i] + p.signatures[i + 1..]);
      assert KindRects(q, s.kind) == KindRects(p, s.kind)[..i] + KindRects(p, s.kind)[i + 1..];
      q
    case StampItem =>
      var q := p.(stamps := p.stamps[..i] + p.stamps[i + 1..]);
      assert KindRects(q, s.kind) == KindRects(p, s.kind)[..i] + KindRects(p, s.kind)[i + 1..];
      q
  }

  /** keyPressEvent: the Delete key with a selection removes exactly the
      selected item from its own list and clears the selection; an
      out-of-range selection raises IndexError; any other key, or no
      selection, changes nothing. */
  function KeyPress(p: Page, isDelete: bool): (r: Result<Page, EventError>)
    ensures !(isDelete && p.selected.Some?) ==> r == Ok(p)
    ensures isDelete && p.selected.Some? ==>
      var s := p.selected.value;
      && (r.Fail? <==> s.index >= |KindRects(p, s.kind)|)
      && (r.Ok? ==> && r.value.selected.None?
                    && SameExcept(p, r.value, ActionOf(s.kind))
                    && Count(r.value, ActionOf(s.kind)) == Count(p, ActionOf(s.kind)) - 1
                    && KindRects(r.value, s.kind) == KindRects(p, s.kind)[..s.index] + KindRects(p, s.kind)[s.index + 1..])
  {
    if isDelete && p.selected.Some? then
      var s := p.selected.value;
      if s.index >= |KindRects(p, s.kind)| then Fail(IndexError)
      else
        Ok(RemoveItem(p, s).(selected := None))
    else Ok(p)
  }

  /** The Delete key undoes an append: with the item an action just added
      selected (the last of its list), Delete gives back the page's items as
      they were before the action. */
  lemma DeleteRevertsAppend(p: Page, q: Page, e: HistoryEntry, k: ItemKind)
    requires ActionOf(k) == e.kind && AppendedFor(p, q, e)
    requires q.selected == Some(Selection(k, Count(p, e.kind)))
    ensures KeyPress(q, true).Ok? && SameItems(KeyPress(q, true).value, p)
  {
    match k
    case TextBoxItem => assert q.textboxes[..|p.textboxes|] == p.textboxes;
    case SignatureItem => assert q.signatures[..|p.signatures|] == p.signatures;
    case StampItem => assert q.stamps[..|p.stamps|] == p.stamps;
  }
}
