/** The main window (class BlackoutPDF in blackoutpdf.py and in BOPDF.py):
    the page widgets, the undo history shared by every page, the theme flag
    and whether a PDF is open.

    The two files differ in undo_last_action: blackoutpdf.py removes the
    recorded rectangle by value, BOPDF.py pops the last element of the list
    the entry names. Both are modelled, with a third, corrected variant (see
    README, Findings). */
module Editor {
  import opened Results
  import opened Geometry
  import opened Lists
  import opened Annotations

  datatype Window = Window(pages: seq<Page>, history: seq<HistoryEntry>, darkMode: bool, pdfLoaded: bool)

  /** Widget i is page i, and every history entry names an existing page. */
  ghost predicate WellFormed(w: Window) {
    && (forall i :: 0 <= i < |w.pages| ==> w.pages[i].index == i)
    && (forall j :: 0 <= j < |w.history| ==> w.history[j].page < |w.pages|)
  }

  /** A window showing n fresh pages with an empty history. */
  function Opened(n: nat, darkMode: bool): (w: Window)
    ensures WellFormed(w) && |w.pages| == n && w.history == [] && w.pdfLoaded
    ensures forall i :: 0 <= i < n ==> ItemCount(w.pages[i]) == 0
  {
    Window(seq(n, i requires 0 <= i < n => NewPage(i)), [], darkMode, true)
  }

  /** The two pages differ at most in their annotation lists. */
  predicate OnlyListsDiffer(p: Page, q: Page) {
    q == p.(rects := q.rects, highlights := q.highlights, comments := q.comments,
            signatures := q.signatures, stamps := q.stamps, textboxes := q.textboxes)
  }

  /** The rectangles of the list an action kind records into. */
  function Rects(p: Page, k: ActionKind): (rs: seq<Rect>)
    ensures |rs| == Count(p, k)
  {
    match k
    case BlackoutAction => p.rects
    case HighlightAction => p.highlights
    case CommentAction => seq(|p.comments|, i requires 0 <= i < |p.comments| => p.comments[i].rect)
    case SignatureAction => KindRects(p, SignatureItem)
    case StampAction => KindRects(p, StampItem)
    case TextBoxAction => KindRects(p, TextBoxItem)
  }

  // ----- page events routed to the window -----

  /** A page handler's result taken into the window: the widget is replaced
      and what it logged is appended to the shared history. */
  function Apply(w: Window, i: nat, st: Step): Window
    requires i < |w.pages|
  {
    w.(pages := w.pages[i := st.page], history := w.history + st.logged)
  }

  /** A press on page i. The history only grows, by at most one entry, and
      no other page changes; a well-formed window stays well-formed. */
  function Press(w: Window, i: nat, x: int, y: int, button: Button, text: Option<string>, font: Option<FontSize>): (r: Window)
    requires i < |w.pages|
    ensures WellFormed(w) ==> WellFormed(r)
    ensures w.history <= r.history && |r.history| <= |w.history| + 1
    ensures |r.pages| == |w.pages| && forall j :: 0 <= j < |w.pages| && j != i ==> r.pages[j] == w.pages[j]
    ensures ItemCount(r.pages[i]) == ItemCount(w.pages[i]) + (|r.history| - |w.history|)
  {
    Apply(w, i, MousePress(w.pages[i], x, y, button, text, font))
  }

  /** A release on page i, with the same guarantees as a press. */
  function Release(w: Window, i: nat): (r: Window)
    requires i < |w.pages|
    ensures WellFormed(w) ==> WellFormed(r)
    ensures w.history <= r.history && |r.history| <= |w.history| + 1
    ensures |r.pages| == |w.pages| && forall j :: 0 <= j < |w.pages| && j != i ==> r.pages[j] == w.pages[j]
    ensures |r.history| == |w.history| + 1 <==> Commits(w.pages[i])
  {
    Apply(w, i, MouseRelease(w.pages[i]))
  }

  // ----- undo_last_action -----

  /** `v` is `w` with its last history entry popped and only that entry's
      page replaced, by `q`. */
  predicate UndidLast(w: Window, v: Window, q: Page)
    requires |w.history| > 0
  {
    var e := w.history[|w.history| - 1];
    && v.history == w.history[..|w.history| - 1]
    && |v.pages| == |w.pages| && e.page < |w.pages| && v.pages[e.page] == q
    && (forall j :: 0 <= j < |w.pages| && j != e.page ==> v.pages[j] == w.pages[j])
    && v.darkMode == w.darkMode && v.pdfLoaded == w.pdfLoaded
  }

  /** The shared skeleton of undo_last_action: nothing to do on an empty
      history; otherwise pop the last entry, then look up its page (an
      IndexError if there is none) and let `f` undo it there. */
  function UndoWith(w: Window, f: (Page, HistoryEntry) -> Page): (r: Result<Window, EventError>)
    ensures |w.history| == 0 ==> r == Ok(w)
    ensures |w.history| > 0 ==> (r.Fail? <==> w.history[|w.history| - 1].page >= |w.pages|)
    ensures r.Ok? && |w.history| > 0 ==>
      var e := w.history[|w.history| - 1];
      e.page < |w.pages| && UndidLast(w, r.value, f(w.pages[e.page], e))
  {
    if |w.history| == 0 then Ok(w)
    else
      var e := w.history[|w.history| - 1];
      if e.page >= |w.pages| then Fail(IndexError)
      else Ok(w.(pages := w.pages[e.page := f(w.pages[e.page], e)], history := w.history[..|w.history| - 1]))
  }

  /** The rectangle each kind of item is recorded by. */
  function RectOf(r: Rect): Rect { r }
  function CommentRect(c: Comment): Rect { c.rect }
  function PlacedRect(s: Placed): Rect { s.rect }
  function TextBoxRect(t: TextBox): Rect { t.rect }

  /** blackoutpdf.py's undo on one page: a blackout or highlight entry
      removes the first equal rectangle, if there is one; any other entry
      drops every item of its list whose rectangle equals the recorded one. */
  function UndoValueOnPage(p: Page, e: HistoryEntry): (q: Page)
    ensures OnlyListsDiffer(p, q) && SameExcept(p, q, e.kind)
    ensures e.kind == BlackoutAction ==> q.rects == RemoveFirst(p.rects, e.data)
    ensures e.kind == HighlightAction ==> q.highlights == RemoveFirst(p.highlights, e.data)
    ensures e.kind == CommentAction ==> KeepsExactly(p.comments, q.comments, KeyIsNot(CommentRect, e.data))
    ensures e.kind == SignatureAction ==> KeepsExactly(p.signatures, q.signatures, KeyIsNot(PlacedRect, e.data))
    ensures e.kind == StampAction ==> KeepsExactly(p.stamps, q.stamps, KeyIsNot(PlacedRect, e.data))
    ensures e.kind == TextBoxAction ==> KeepsExactly(p.textboxes, q.textboxes, KeyIsNot(TextBoxRect, e.data))
    ensures e.data !in Rects(p, e.kind) ==> q == p
  {
    var d := e.data;
    match e.kind
    case BlackoutAction => p.(rects := RemoveFirst(p.rects, d))
    case HighlightAction => p.(highlights := RemoveFirst(p.highlights, d))
    case CommentAction =>
      assert Rects(p, e.kind) == Keys(p.comments, CommentRect);
      p.(comments := DropKeyed(p.comments, CommentRect, d))
    case SignatureAction =>
      assert Rects(p, e.kind) == Keys(p.signatures, PlacedRect);
      p.(signatures := DropKeyed(p.signatures, PlacedRect, d))
    case StampAction =>
      assert Rects(p, e.kind) == Keys(p.stamps, PlacedRect);
      p.(stamps := DropKeyed(p.stamps, PlacedRect, d))
    case TextBoxAction =>
      assert Rects(p, e.kind) == Keys(p.textboxes, TextBoxRect);
      p.(textboxes := DropKeyed(p.textboxes, TextBoxRect, d))
  }

  /** undo_last_action of blackoutpdf.py. Undo with an empty history changes
      nothing; otherwise exactly the last entry is popped and undone on its
      page, and nothing else changes. It cannot fail on a well-formed window. */
  function UndoByValue(w: Window): (r: Result<Window, EventError>)
    ensures |w.history| == 0 ==> r == Ok(w)
    ensures |w.history| > 0 ==> (r.Fail? <==> w.history[|w.history| - 1].page >= |w.pages|)
    ensures r.Ok? && |w.history| > 0 ==>
      var e := w.history[|w.history| - 1];
      e.page < |w.pages| && UndidLast(w, r.value, UndoValueOnPage(w.pages[e.page], e))
    ensures WellFormed(w) ==> r.Ok? && WellFormed(r.value)
  {
    UndoWith(w, UndoValueOnPage)
  }

  /** BOPDF.py's undo on one page: pop the last element of the list the entry
      names, if that list is non-empty; the recorded rectangle is not read. */
  function UndoPopOnPage(p: Page, k: ActionKind): (q: Page)
    ensures OnlyListsDiffer(p, q) && SameExcept(p, q, k) && Grows(q, p)
    ensures Count(q, k) == if Count(p, k) > 0 then Count(p, k) - 1 else 0
  {
    match k
    case BlackoutAction => if |p.rects| > 0 then p.(rects := p.rects[..|p.rects| - 1]) else p
    case HighlightAction => if |p.highlights| > 0 then p.(highlights := p.highlights[..|p.highlights| - 1]) else p
    case CommentAction => if |p.comments| > 0 then p.(comments := p.comments[..|p.comments| - 1]) else p
    case SignatureAction => if |p.signatures| > 0 then p.(signatures := p.signatures[..|p.signatures| - 1]) else p
    case StampAction => if |p.stamps| > 0 then p.(stamps := p.stamps[..|p.stamps| - 1]) else p
    case TextBoxAction => if |p.textboxes| > 0 then p.(textboxes := p.textboxes[..|p.textboxes| - 1]) else p
  }

  /** undo_last_action of BOPDF.py: as UndoByValue, but the page's list is
      popped. */
  function UndoByPop(w: Window): (r: Result<Window, EventError>)
    ensures |w.history| == 0 ==> r == Ok(w)
    ensures |w.history| > 0 ==> (r.Fail? <==> w.history[|w.history| - 1].page >= |w.pages|)
    ensures r.Ok? && |w.history| > 0 ==>
      var e := w.history[|w.history| - 1];
      e.page < |w.pages| && UndidLast(w, r.value, UndoPopOnPage(w.pages[e.page], e.kind))
    ensures WellFormed(w) ==> r.Ok? && WellFormed(r.value)
  {
    UndoWith(w, (p: Page, e: HistoryEntry) => UndoPopOnPage(p, e.kind))
  }

  /** The list kind k records into lost its element at index i and kept
      the others in order. */
  predicate DropsAt(p: Page, q: Page, k: ActionKind, i: nat) {
    match k
    case BlackoutAction => i < |p.rects| && q.rects == p.rects[..i] + p.rects[i + 1..]
    case HighlightAction => i < |p.highlights| && q.highlights == p.highlights[..i] + p.highlights[i + 1..]
    case CommentAction => i < |p.comments| && q.comments == p.comments[..i] + p.comments[i + 1..]
    case SignatureAction => i < |p.signatures| && q.signatures == p.signatures[..i] + p.signatures[i + 1..]
    case StampAction => i < |p.stamps| && q.stamps == p.stamps[..i] + p.stamps[i + 1..]
    case TextBoxAction => i < |p.textboxes| && q.textboxes == p.textboxes[..i] + p.textboxes[i + 1..]
  }

  /** The corrected removal: only the last item of the entry's list whose
      rectangle equals the recorded one is removed. */
  function UndoLastMatchOnPage(p: Page, e: HistoryEntry): (q: Page)
    ensures OnlyListsDiffer(p, q) && SameExcept(p, q, e.kind)
    ensures e.data !in Rects(p, e.kind) ==> q == p
    ensures e.data in Rects(p, e.kind) ==> Count(q, e.kind) == Count(p, e.kind) - 1
    ensures e.data in Rects(p, e.kind) ==> DropsAt(p, q, e.kind, LastIndex(Rects(p, e.kind), e.data))
  {
    var d := e.data;
    match e.kind
    case BlackoutAction =>
      assert Rects(p, e.kind) == Keys(p.rects, RectOf);
      p.(rects := RemoveLastKeyed(p.rects, RectOf, d))
    case HighlightAction =>
      assert Rects(p, e.kind) == Keys(p.highlights, RectOf);
      p.(highlights := RemoveLastKeyed(p.highlights, RectOf, d))
    case CommentAction =>
      assert Rects(p, e.kind) == Keys(p.comments, CommentRect);
      p.(comments := RemoveLastKeyed(p.comments, CommentRect, d))
    case SignatureAction =>
      assert Rects(p, e.kind) == Keys(p.signatures, PlacedRect);
      p.(signatures := RemoveLastKeyed(p.signatures, PlacedRect, d))
    case StampAction =>
      assert Rects(p, e.kind) == Keys(p.stamps, PlacedRect);
      p.(stamps := RemoveLastKeyed(p.stamps, PlacedRect, d))
    case TextBoxAction =>
      assert Rects(p, e.kind) == Keys(p.textboxes, TextBoxRect);
      p.(textboxes := RemoveLastKeyed(p.textboxes, TextBoxRect, d))
  }

  /** The corrected by-value undo. */
  function UndoByLastMatch(w: Window): (r: Result<Window, EventError>)
    ensures |w.history| == 0 ==> r == Ok(w)
    ensures |w.history| > 0 ==> (r.Fail? <==> w.history[|w.history| - 1].page >= |w.pages|)
    ensures r.Ok? && |w.history| > 0 ==>
      var e := w.history[|w.history| - 1];
      e.page < |w.pages| && UndidLast(w, r.value, UndoLastMatchOnPage(w.pages[e.page], e))
    ensures WellFormed(w) ==> r.Ok? && WellFormed(r.value)
  {
    UndoWith(w, UndoLastMatchOnPage)
  }

  /** The step appended exactly one item to page i and logged it. */
  predicate AddsOne(w: Window, i: nat, st: Step) {
    && i < |w.pages| && |st.logged| == 1 && st.logged[0].page == i
    && AppendedFor(w.pages[i], st.page, st.logged[0])
  }

  /** BOPDF.py: undoing right after an action that added an item removes
      exactly that item and its history entry. */
  lemma UndoPopRevertsStep(w: Window, i: nat, st: Step)
    requires AddsOne(w, i, st)
    ensures UndoByPop(Apply(w, i, st)).Ok?
    ensures var v := UndoByPop(Apply(w, i, st)).value;
      && v.history == w.history && |v.pages| == |w.pages| && SameItems(v.pages[i], w.pages[i])
      && forall j :: 0 <= j < |w.pages| && j != i ==> v.pages[j] == w.pages[j]
  {
    var a := Apply(w, i, st);
    assert a.history[|a.history| - 1] == st.logged[0];
    assert a.history[..|a.history| - 1] == w.history;
  }

  /** The corrected undo has the same guarantee for the by-value removal. */
  lemma UndoLastMatchRevertsStep(w: Window, i: nat, st: Step)
    requires AddsOne(w, i, st)
    ensures UndoByLastMatch(Apply(w, i, st)).Ok?
    ensures var v := UndoByLastMatch(Apply(w, i, st)).value;
      && v.history == w.history && |v.pages| == |w.pages| && SameItems(v.pages[i], w.pages[i])
      && forall j :: 0 <= j < |w.pages| && j != i ==> v.pages[j] == w.pages[j]
  {
    var a := Apply(w, i, st);
    assert a.history[|a.history| - 1] == st.logged[0];
    assert a.history[..|a.history| - 1] == w.history;
    UndoLastMatchOnAppend(w.pages[i], st.page, st.logged[0]);
  }

  /** On one page: the corrected removal takes back exactly the item just
      appended, whatever rectangles the earlier items have. */
  lemma UndoLastMatchOnAppend(p: Page, q: Page, e: HistoryEntry)
    requires AppendedFor(p, q, e)
    ensures SameItems(UndoLastMatchOnPage(q, e), p)
  {
    var d := e.data;
    match e.kind
    case BlackoutAction =>
      assert q.rects == p.rects + [d];
      RemoveLastKeyedOfAppend(p.rects, d, RectOf, d);
    case HighlightAction =>
      assert q.highlights == p.highlights + [d];
      RemoveLastKeyedOfAppend(p.highlights, d, RectOf, d);
    case CommentAction =>
      assert q.comments == p.comments + [q.comments[|p.comments|]];
      RemoveLastKeyedOfAppend(p.comments, q.comments[|p.comments|], CommentRect, d);
    case _ =>
      UndoLastMatchOnAppendItem(p, q, e);
  }

  /** UndoLastMatchOnAppend for the selectable kinds. */
  lemma UndoLastMatchOnAppendItem(p: Page, q: Page, e: HistoryEntry)
    requires AppendedFor(p, q, e) && e.kind in {SignatureAction, StampAction, TextBoxAction}
    ensures SameItems(UndoLastMatchOnPage(q, e), p)
  {
    var d := e.data;
    match e.kind
    case SignatureAction =>
      assert q.signatures == p.signatures + [q.signatures[|p.signatures|]];
      RemoveLastKeyedOfAppend(p.signatures, q.signatures[|p.signatures|], PlacedRect, d);
    case StampAction =>
      assert q.stamps == p.stamps + [q.stamps[|p.stamps|]];
      RemoveLastKeyedOfAppend(p.stamps, q.stamps[|p.stamps|], PlacedRect, d);
    case TextBoxAction =>
      assert q.textboxes == p.textboxes + [q.textboxes[|p.textboxes|]];
      RemoveLastKeyedOfAppend(p.textboxes, q.textboxes[|p.textboxes|], TextBoxRect, d);
  }

  /** On one page: removing by value the item just appended restores the
      lists, when no earlier item of that list had the same rectangle. */
  lemma UndoValueOnFreshAppend(p: Page, q: Page, e: HistoryEntry)
    requires AppendedFor(p, q, e) && e.data !in Rects(p, e.kind)
    ensures SameItems(UndoValueOnPage(q, e), p)
  {
    var d := e.data;
    assert forall k :: 0 <= k < Count(p, e.kind) ==> Rects(p, e.kind)[k] != d;
    match e.kind
    case BlackoutAction =>
      assert q.rects == p.rects + [d];
      RemoveFirstOfAppend(p.rects, d);
    case HighlightAction =>
      assert q.highlights == p.highlights + [d];
      RemoveFirstOfAppend(p.highlights, d);
    case CommentAction =>
      assert q.comments == p.comments + [q.comments[|p.comments|]];
      assert forall k :: 0 <= k < |p.comments| ==> Rects(p, e.kind)[k] == p.comments[k].rect;
      FilterDropsAppended(p.comments, q.comments[|p.comments|], KeyIsNot(CommentRect, d));
    case SignatureAction =>
      assert q.signatures == p.signatures + [q.signatures[|p.signatures|]];
      assert forall k :: 0 <= k < |p.signatures| ==> Rects(p, e.kind)[k] == p.signatures[k].rect;
      FilterDropsAppended(p.signatures, q.signatures[|p.signatures|], KeyIsNot(PlacedRect, d));
    case StampAction =>
      assert q.stamps == p.stamps + [q.stamps[|p.stamps|]];
      assert forall k :: 0 <= k < |p.stamps| ==> Rects(p, e.kind)[k] == p.stamps[k].rect;
      FilterDropsAppended(p.stamps, q.stamps[|p.stamps|], KeyIsNot(PlacedRect, d));
    case TextBoxAction =>
      assert q.textboxes == p.textboxes + [q.textboxes[|p.textboxes|]];
      assert forall k :: 0 <= k < |p.textboxes| ==> Rects(p, e.kind)[k] == p.textboxes[k].rect;
      FilterDropsAppended(p.textboxes, q.textboxes[|p.textboxes|], KeyIsNot(TextBoxRect, d));
  }

  /** blackoutpdf.py: undoing right after an action that added an item
      restores the page, provided no earlier item of that list has the same
      rectangle. */
  lemma UndoValueRevertsFreshStep(w: Window, i: nat, st: Step)
    requires AddsOne(w, i, st)
    requires st.logged[0].data !in Rects(w.pages[i], st.logged[0].kind)
    ensures UndoByValue(Apply(w, i, st)).Ok?
    ensures var v := UndoByValue(Apply(w, i, st)).value;
      && v.history == w.history && |v.pages| == |w.pages| && SameItems(v.pages[i], w.pages[i])
      && forall j :: 0 <= j < |w.pages| && j != i ==> v.pages[j] == w.pages[j]
  {
    var a := Apply(w, i, st);
    assert a.history[|a.history| - 1] == st.logged[0];
    assert a.history[..|a.history| - 1] == w.history;
    UndoValueOnFreshAppend(w.pages[i], st.page, st.logged[0]);
  }

  /** blackoutpdf.py, blackouts: undoing a committed rubber band always
      leaves the same rectangles as before, though perhaps reordered. */
  lemma UndoValueBlackoutSameRects(w: Window, i: nat, st: Step)
    requires AddsOne(w, i, st) && st.logged[0].kind == BlackoutAction
    ensures UndoByValue(Apply(w, i, st)).Ok?
    ensures multiset(UndoByValue(Apply(w, i, st)).value.pages[i].rects) == multiset(w.pages[i].rects)
  {
    var a := Apply(w, i, st);
    assert a.history[|a.history| - 1] == st.logged[0];
    assert st.page.rects == w.pages[i].rects + [st.logged[0].data];
  }

  /** The defect of the by-value undo: two comments placed by two clicks at
      the same point have equal rectangles, and a single undo removes both,
      the earlier one included. The corrected undo removes only the later. */
  lemma UndoValueDropsTwin(w: Window, i: nat, x: int, y: int, a: string, b: string)
    requires i < |w.pages| && w.pages[i].index == i && w.pages[i].mode == CommentMode
    requires !IsBlank(a) && !IsBlank(b)
    ensures var w2 := Press(Press(w, i, x, y, LeftButton, Some(a), None), i, x, y, LeftButton, Some(b), None);
      && |w2.pages[i].comments| == |w.pages[i].comments| + 2
      && UndoByValue(w2).Ok? && UndoByLastMatch(w2).Ok?
      && |UndoByValue(w2).value.pages[i].comments| <= |w.pages[i].comments|
      && UndoByLastMatch(w2).value.pages[i].comments
         == w.pages[i].comments + [Comment(RectXYWH(x, y, CommentSize, CommentSize), a)]
  {
    var p := w.pages[i];
    var r := RectXYWH(x, y, CommentSize, CommentSize);
    var e := HistoryEntry(i, CommentAction, r);
    var ca, cb := Comment(r, a), Comment(r, b);
    CommentClickAppends(p, x, y, LeftButton, a);
    var w1 := Press(w, i, x, y, LeftButton, Some(a), None);
    var p1 := p.(comments := p.comments + [ca]);
    assert w1.pages[i] == p1 && w1.history == w.history + [e];
    CommentClickAppends(p1, x, y, LeftButton, b);
    var w2 := Press(w1, i, x, y, LeftButton, Some(b), None);
    var p2 := p1.(comments := p.comments + [ca] + [cb]);
    assert w2.pages[i] == p2 && w2.history[|w2.history| - 1] == e;
    TwinUndoOnPage(p, e, a, b);
    assert UndoByValue(w2).value.pages[i] == UndoValueOnPage(p2, e);
    assert UndoByLastMatch(w2).value.pages[i] == UndoLastMatchOnPage(p2, e);
  }

  /** On one page: after two comments with the recorded rectangle were
      appended, the by-value undo drops both and the corrected one the
      later only. */
  lemma TwinUndoOnPage(p: Page, e: HistoryEntry, a: string, b: string)
    requires e.kind == CommentAction
    ensures var q := p.(comments := p.comments + [Comment(e.data, a)] + [Comment(e.data, b)]);
      && |UndoValueOnPage(q, e).comments| <= |p.comments|
      && UndoLastMatchOnPage(q, e).comments == p.comments + [Comment(e.data, a)]
  {
    var ca, cb := Comment(e.data, a), Comment(e.data, b);
    var keep := KeyIsNot(CommentRect, e.data);
    FilterSnoc(p.comments + [ca], cb, keep);
    FilterSnoc(p.comments, ca, keep);
  }

  /** BOPDF.py: undoing right after a committed rubber band removes it. */
  lemma UndoPopAfterRelease(w: Window, i: nat)
    requires i < |w.pages| && w.pages[i].index == i && Commits(w.pages[i])
    ensures UndoByPop(Release(w, i)).Ok?
    ensures SameItems(UndoByPop(Release(w, i)).value.pages[i], w.pages[i])
    ensures UndoByPop(Release(w, i)).value.history == w.history
  {
    UndoPopRevertsStep(w, i, MouseRelease(w.pages[i]));
  }

  // ----- toggle_theme -----

  /** apply_dark_theme: records dark mode (the stylesheet is not modelled). */
  function ApplyDarkTheme(w: Window): (r: Window)
    ensures r.darkMode && r.pages == w.pages && r.history == w.history && r.pdfLoaded == w.pdfLoaded
  {
    w.(darkMode := true)
  }

  /** apply_light_theme. */
  function ApplyLightTheme(w: Window): (r: Window)
    ensures !r.darkMode && r.pages == w.pages && r.history == w.history && r.pdfLoaded == w.pdfLoaded
  {
    w.(darkMode := false)
  }

  /** toggle_theme of BOPDF.py: the light theme if dark, else the dark one. */
  function ToggleTheme(w: Window): (r: Window)
    ensures r.darkMode == !w.darkMode
    ensures r.pages == w.pages && r.history == w.history && r.pdfLoaded == w.pdfLoaded
  {
    if w.darkMode then ApplyLightTheme(w) else ApplyDarkTheme(w)
  }

  /** toggle_theme of blackoutpdf.py: negate the flag, then apply the theme
      it now names. */
  function ToggleThemeByNegation(w: Window): (r: Window)
    ensures r == ToggleTheme(w)
  {
    var flipped := w.(darkMode := !w.darkMode);
    if flipped.darkMode then ApplyDarkTheme(flipped) else ApplyLightTheme(flipped)
  }

  /** Toggling twice restores the window. */
  lemma ToggleThemeTwice(w: Window)
    ensures ToggleTheme(ToggleTheme(w)) == w
  {
  }

  // ----- set_mode_for_all -----

  /** set_mode_for_all: set_mode on every page. */
  function SetModeForAll(w: Window, m: Mode): (r: Window)
    ensures |r.pages| == |w.pages| && r.history == w.history
    ensures forall i :: 0 <= i < |w.pages| ==>
      && r.pages[i].mode == m && r.pages[i].selected.None?
      && SameItems(w.pages[i], r.pages[i]) && r.pages[i].index == w.pages[i].index
    ensures WellFormed(w) ==> WellFormed(r)
  {
    w.(pages := seq(|w.pages|, i requires 0 <= i < |w.pages| => SetMode(w.pages[i], m)))
  }

  // ----- start_signature_placement -----

  /** start_signature_placement of BOPDF.py. `chosen` is the loaded image
      scaled into 90x38 (aspect kept), or None when the file dialog was
      cancelled or the image is null. Every page gets that image as both the
      pending signature and its original, and enters signature mode through
      set_mode, which drops any selection. */
  function StartSignaturePlacement(w: Window, chosen: Option<Picture>): (r: Window)
    ensures chosen.None? ==> r == w
    ensures |r.pages| == |w.pages| && r.history == w.history
    ensures chosen.Some? ==> forall i :: 0 <= i < |w.pages| ==>
      && r.pages[i].mode == SignatureMode && r.pages[i].selected.None?
      && r.pages[i].pendingSignature == Some(chosen.value)
      && r.pages[i].pendingSignatureOriginal == Some(chosen.value)
      && SameItems(w.pages[i], r.pages[i]) && r.pages[i].index == w.pages[i].index
    ensures WellFormed(w) ==> WellFormed(r)
  {
    match chosen
    case None => w
    case Some(sig) =>
      w.(pages := seq(|w.pages|, i requires 0 <= i < |w.pages| =>
           SetMode(w.pages[i].(pendingSignature := Some(sig), pendingSignatureOriginal := Some(sig)), SignatureMode)))
  }

  /** start_stamp_placement of BOPDF.py: as for signatures, with the image
      pending as a stamp and every page in stamp mode through set_mode. */
  function StartStampPlacement(w: Window, chosen: Option<Picture>): (r: Window)
    ensures chosen.None? ==> r == w
    ensures |r.pages| == |w.pages| && r.history == w.history
    ensures chosen.Some? ==> forall i :: 0 <= i < |w.pages| ==>
      && r.pages[i].mode == StampMode && r.pages[i].selected.None?
      && r.pages[i].pendingStamp == Some(chosen.value)
      && r.pages[i].pendingStampOriginal == Some(chosen.value)
      && SameItems(w.pages[i], r.pages[i]) && r.pages[i].index == w.pages[i].index
    ensures WellFormed(w) ==> WellFormed(r)
  {
    match chosen
    case None => w
    case Some(st) =>
      w.(pages := seq(|w.pages|, i requires 0 <= i < |w.pages| =>
           SetMode(w.pages[i].(pendingStamp := Some(st), pendingStampOriginal := Some(st)), StampMode)))
  }

  /** The placement starts of blackoutpdf.py (start_signature_placement and
      start_stamp_placement). The chosen image is a pair: the pixmap scaled
      to width 90, pending as the signature (or, when `stamp`, the stamp),
      and the unscaled pixmap as its original. The mode is assigned to each
      widget directly rather than through set_mode, so a selection, a
      grabbed handle or a drag offset is left as it was. */
  function StartPlacementDirect(w: Window, stamp: bool, chosen: Option<(Picture, Picture)>): (r: Window)
    ensures chosen.None? ==> r == w
    ensures |r.pages| == |w.pages| && r.history == w.history
    ensures chosen.Some? ==> forall i :: 0 <= i < |w.pages| ==>
      var p, q := w.pages[i], r.pages[i];
      && q.mode == (if stamp then StampMode else SignatureMode)
      && q.selected == p.selected && q.handle == p.handle && q.offset == p.offset
      && (stamp ==> && q.pendingStamp == Some(chosen.value.0) && q.pendingStampOriginal == Some(chosen.value.1)
                    && q.pendingSignature == p.pendingSignature)
      && (!stamp ==> && q.pendingSignature == Some(chosen.value.0) && q.pendingSignatureOriginal == Some(chosen.value.1)
                     && q.pendingStamp == p.pendingStamp)
      && SameItems(p, q) && q.index == p.index
    ensures WellFormed(w) ==> WellFormed(r)
  {
    match chosen
    case None => w
    case Some((shown, original)) =>
      w.(pages := seq(|w.pages|, i requires 0 <= i < |w.pages| =>
           if stamp then w.pages[i].(mode := StampMode, pendingStamp := Some(shown), pendingStampOriginal := Some(original))
           else w.pages[i].(mode := SignatureMode, pendingSignature := Some(shown), pendingSignatureOriginal := Some(original))))
  }

  /** The two files' placement starts differ only where blackoutpdf.py
      skips set_mode: on a window where no page has a selection, grabbed
      handle or drag offset, and for an image that is its own original, they
      give the same window. */
  lemma PlacementStartsAgree(w: Window, pic: Picture)
    requires forall i :: 0 <= i < |w.pages| ==>
      w.pages[i].selected.None? && w.pages[i].handle.None? && w.pages[i].offset.None?
    ensures StartPlacementDirect(w, false, Some((pic, pic))) == StartSignaturePlacement(w, Some(pic))
    ensures StartPlacementDirect(w, true, Some((pic, pic))) == StartStampPlacement(w, Some(pic))
  {
    var a, b := StartPlacementDirect(w, false, Some((pic, pic))), StartSignaturePlacement(w, Some(pic));
    assert a.pages == b.pages;
    var c, d := StartPlacementDirect(w, true, Some((pic, pic))), StartStampPlacement(w, Some(pic));
    assert c.pages == d.pages;
  }

  /** Starting a placement and then clicking anywhere on page i places the
      signature with its top-left at the click, logs one entry for it, and
      leaves that page out of signature mode with nothing pending. */
  lemma PlacementThenClick(w: Window, sig: Picture, i: nat, x: int, y: int, button: Button, text: Option<string>, font: Option<FontSize>)
    requires i < |w.pages| && w.pages[i].index == i
    ensures var s := StartSignaturePlacement(w, Some(sig));
      var r := Press(s, i, x, y, button, text, font);
      var rect := RectXYWH(x, y, sig.width, sig.height);
      && r.pages[i].signatures == w.pages[i].signatures + [Placed(rect, AsPlaced(sig), sig)]
      && r.history == w.history + [HistoryEntry(i, SignatureAction, rect)]
      && r.pages[i].mode == NoMode && r.pages[i].pendingSignature.None?
      && SameExcept(w.pages[i], r.pages[i], SignatureAction)
  {
    var s := StartSignaturePlacement(w, Some(sig));
    var p := s.pages[i];
    var st := MousePress(p, x, y, button, text, font);
    assert st == PlaceSignature(p, x, y);
    assert st.page.signatures == p.signatures + [st.page.signatures[|p.signatures|]];
  }

  /** After blackoutpdf.py's start, a click anywhere on page i places the
      scaled image with its original, logs one entry and leaves no mode,
      even if the page kept a selection: outside no mode a press never
      selects. */
  lemma DirectPlacementThenClick(w: Window, stamp: bool, shown: Picture, original: Picture, i: nat,
                                 x: int, y: int, button: Button, text: Option<string>, font: Option<FontSize>)
    requires i < |w.pages| && w.pages[i].index == i
    ensures var s := StartPlacementDirect(w, stamp, Some((shown, original)));
      var r := Press(s, i, x, y, button, text, font);
      var rect := RectXYWH(x, y, shown.width, shown.height);
      && (stamp ==> && r.pages[i].stamps == w.pages[i].stamps + [Placed(rect, AsPlaced(shown), original)]
                    && r.history == w.history + [HistoryEntry(i, StampAction, rect)])
      && (!stamp ==> && r.pages[i].signatures == w.pages[i].signatures + [Placed(rect, AsPlaced(shown), original)]
                     && r.history == w.history + [HistoryEntry(i, SignatureAction, rect)])
      && r.pages[i].mode == NoMode
  {
    var s := StartPlacementDirect(w, stamp, Some((shown, original)));
    var p := s.pages[i];
    var st := MousePress(p, x, y, button, text, font);
    if stamp {
      assert st == PlaceStamp(p, x, y);
      assert st.page.stamps == p.stamps + [st.page.stamps[|p.stamps|]];
    } else {
      assert st == PlaceSignature(p, x, y);
      assert st.page.signatures == p.signatures + [st.page.signatures[|p.signatures|]];
    }
  }

  // ----- run_ocr -----

  /** One word box of pytesseract.image_to_data. */
  datatype OcrBox = OcrBox(left: int, top: int, width: int, height: int, text: string)

  /** QRect(left, top, width, height) of a box. */
  function BoxRect(b: OcrBox): (r: Rect)
    ensures r.TopLeft() == Point(b.left, b.top) && r.Width() == b.width && r.Height() == b.height
  {
    RectXYWH(b.left, b.top, b.width, b.height)
  }

  function BoxRects(bs: seq<OcrBox>): (rs: seq<Rect>)
    ensures |rs| == |bs| && forall i :: 0 <= i < |bs| ==> rs[i] == BoxRect(bs[i])
  {
    seq(|bs|, i requires 0 <= i < |bs| => BoxRect(bs[i]))
  }

  /** The filter of blackoutpdf.py: the text is not blank. */
  predicate HasText(b: OcrBox) {
    !IsBlank(b.text)
  }

  /** A box must be wider than this to be highlighted (BOPDF.py). */
  const OcrMinWidth := 18
  /** A box must be higher than this to be highlighted (BOPDF.py). */
  const OcrMinHeight := 10

  /** The filter of BOPDF.py: non-blank text in a box above the size limits. */
  predicate Highlightable(b: OcrBox) {
    HasText(b) && b.width > OcrMinWidth && b.height > OcrMinHeight
  }

  /** blackoutpdf.py on one page: rects is cleared and then holds one
      rectangle per non-blank box, in box order. */
  function RedactFromOcr(p: Page, bs: seq<OcrBox>): (q: Page)
    ensures OnlyListsDiffer(p, q) && SameExcept(p, q, BlackoutAction)
    ensures |q.rects| <= |bs|
    ensures forall b :: b in bs && HasText(b) ==> BoxRect(b) in q.rects
    ensures (forall i :: 0 <= i < |bs| ==> !HasText(bs[i])) ==> q.rects == []
  {
    var kept := Filter(bs, HasText);
    FilterMembers(bs, HasText);
    assert (forall i :: 0 <= i < |bs| ==> !HasText(bs[i])) ==> kept == [] by {
      if |kept| > 0 {
        assert kept[0] in bs && HasText(kept[0]);
      }
    }
    assert forall b :: b in bs && HasText(b) ==> BoxRect(b) in BoxRects(kept) by {
      forall b | b in bs && HasText(b) ensures BoxRect(b) in BoxRects(kept) {
        var i :| 0 <= i < |kept| && kept[i] == b;
        assert BoxRects(kept)[i] == BoxRect(b);
      }
    }
    p.(rects := BoxRects(kept))
  }

  /** The rectangles blackoutpdf.py's OCR leaves are exactly the non-blank
      boxes in order: one more box adds its rectangle at the end if it has
      text, and nothing otherwise. */
  lemma RedactFromOcrAppend(p: Page, bs: seq<OcrBox>, b: OcrBox)
    ensures RedactFromOcr(p, bs + [b]).rects
            == RedactFromOcr(p, bs).rects + (if HasText(b) then [BoxRect(b)] else [])
  {
    var t := if HasText(b) then [b] else [];
    FilterSnoc(bs, b, HasText);
    BoxRectsConcat(Filter(bs, HasText), t);
    assert BoxRects(t) == (if HasText(b) then [BoxRect(b)] else []);
    assert RedactFromOcr(p, bs + [b]).rects == BoxRects(Filter(bs + [b], HasText));
    assert RedactFromOcr(p, bs).rects == BoxRects(Filter(bs, HasText));
  }

  /** Box rectangles distribute over concatenation. */
  lemma BoxRectsConcat(a: seq<OcrBox>, b: seq<OcrBox>)
    ensures BoxRects(a + b) == BoxRects(a) + BoxRects(b)
  {
    assert forall i :: 0 <= i < |a| + |b| ==> BoxRects(a + b)[i] == (BoxRects(a) + BoxRects(b))[i];
  }

  /** BOPDF.py on one page: the existing highlights are kept and every
      highlightable box is appended, in box order; each added rectangle is
      wider than 18 and higher than 10. */
  function HighlightFromOcr(p: Page, bs: seq<OcrBox>): (q: Page)
    ensures OnlyListsDiffer(p, q) && SameExcept(p, q, HighlightAction)
    ensures p.highlights <= q.highlights && |q.highlights| <= |p.highlights| + |bs|
    ensures forall j :: |p.highlights| <= j < |q.highlights| ==>
      q.highlights[j].Width() > OcrMinWidth && q.highlights[j].Height() > OcrMinHeight
    ensures forall b :: b in bs && Highlightable(b) ==> BoxRect(b) in q.highlights
  {
    var kept := Filter(bs, Highlightable);
    FilterMembers(bs, Highlightable);
    var added := BoxRects(kept);
    assert forall b :: b in bs && Highlightable(b) ==> BoxRect(b) in added by {
      forall b | b in bs && Highlightable(b) ensures BoxRect(b) in added {
        var i :| 0 <= i < |kept| && kept[i] == b;
        assert added[i] == BoxRect(b);
      }
    }
    p.(highlights := p.highlights + added)
  }

  /** The highlights BOPDF.py's OCR adds follow the boxes in order: one more
      box adds its rectangle at the end exactly when it passes the filter. */
  lemma HighlightFromOcrAppend(p: Page, bs: seq<OcrBox>, b: OcrBox)
    ensures HighlightFromOcr(p, bs + [b]).highlights
            == HighlightFromOcr(p, bs).highlights + (if Highlightable(b) then [BoxRect(b)] else [])
  {
    var t := if Highlightable(b) then [b] else [];
    FilterSnoc(bs, b, Highlightable);
    BoxRectsConcat(Filter(bs, Highlightable), t);
    assert BoxRects(t) == (if Highlightable(b) then [BoxRect(b)] else []);
    assert HighlightFromOcr(p, bs + [b]).highlights == p.highlights + BoxRects(Filter(bs + [b], Highlightable));
    assert HighlightFromOcr(p, bs).highlights == p.highlights + BoxRects(Filter(bs, Highlightable));
  }

  /** How many pages run_ocr processes: the pages before the first one
      whose image could not be read or recognised (None). */
  function ReadPrefix(data: seq<Option<seq<OcrBox>>>): (n: nat)
    ensures n <= |data|
    ensures forall j :: 0 <= j < n ==> data[j].Some?
    ensures n < |data| ==> data[n].None?
    decreases |data|
  {
    if |data| == 0 || data[0].None? then 0 else 1 + ReadPrefix(data[1..])
  }

  /** OCR output reached page i: it and every page before it were read
      without an exception. */
  predicate Reached(data: seq<Option<seq<OcrBox>>>, i: nat)
    requires i < |data|
  {
    i < ReadPrefix(data)
  }

  /** The loop of run_ocr inside its try: pages are processed in order, and
      the first page whose image could not be read or recognised (None)
      ends the loop, leaving it and every later page as they were. */
  function OcrPages(ps: seq<Page>, data: seq<Option<seq<OcrBox>>>, f: (Page, seq<OcrBox>) -> Page): (r: seq<Page>)
    requires |data| == |ps|
    ensures |r| == |ps|
    ensures forall i :: 0 <= i < |ps| && Reached(data, i) ==> r[i] == f(ps[i], data[i].value)
    ensures forall i :: 0 <= i < |ps| && !Reached(data, i) ==> r[i] == ps[i]
    decreases |ps|
  {
    if |ps| == 0 || data[0].None? then ps
    else
      var rest := OcrPages(ps[1..], data[1..], f);
      OcrPagesStep(ps, data, f, rest);
      [f(ps[0], data[0].value)] + rest
  }

  /** The inductive step of OcrPages: the first page read, followed by the
      tail's result, meets the contract for the whole list. */
  lemma OcrPagesStep(ps: seq<Page>, data: seq<Option<seq<OcrBox>>>, f: (Page, seq<OcrBox>) -> Page, rest: seq<Page>)
    requires |data| == |ps| > 0 && data[0].Some? && |rest| == |ps| - 1
    requires forall i :: 0 <= i < |rest| && Reached(data[1..], i) ==> rest[i] == f(ps[1..][i], data[1..][i].value)
    requires forall i :: 0 <= i < |rest| && !Reached(data[1..], i) ==> rest[i] == ps[1..][i]
    ensures var r := [f(ps[0], data[0].value)] + rest;
      && (forall i :: 0 <= i < |ps| && Reached(data, i) ==> r[i] == f(ps[i], data[i].value))
      && (forall i :: 0 <= i < |ps| && !Reached(data, i) ==> r[i] == ps[i])
  {
    var r := [f(ps[0], data[0].value)] + rest;
    assert ReadPrefix(data) == 1 + ReadPrefix(data[1..]);
    forall i | 1 <= i < |ps|
      ensures Reached(data, i) ==> r[i] == f(ps[i], data[i].value)
      ensures !Reached(data, i) ==> r[i] == ps[i]
    {
      assert r[i] == rest[i - 1] && ps[1..][i - 1] == ps[i] && data[1..][i - 1] == data[i];
    }
  }

  /** run_ocr of blackoutpdf.py. Without a loaded PDF nothing changes. The
      history is never touched. */
  function RunOcrRedact(w: Window, data: seq<Option<seq<OcrBox>>>): (r: Window)
    requires |data| == |w.pages|
    ensures !w.pdfLoaded ==> r == w
    ensures r.history == w.history && |r.pages| == |w.pages|
    ensures w.pdfLoaded ==> forall i :: 0 <= i < |w.pages| ==>
      if Reached(data, i) then r.pages[i] == RedactFromOcr(w.pages[i], data[i].value) else r.pages[i] == w.pages[i]
    ensures WellFormed(w) ==> WellFormed(r)
  {
    if !w.pdfLoaded then w
    else w.(pages := OcrPages(w.pages, data, RedactFromOcr))
  }

  /** run_ocr of BOPDF.py. Without a loaded PDF, or when the confirmation is
      declined, nothing changes. Blackout rectangles and the history are
      never touched. */
  function RunOcrHighlight(w: Window, confirmed: bool, data: seq<Option<seq<OcrBox>>>): (r: Window)
    requires |data| == |w.pages|
    ensures !(w.pdfLoaded && confirmed) ==> r == w
    ensures r.history == w.history && |r.pages| == |w.pages|
    ensures forall i :: 0 <= i < |w.pages| ==> r.pages[i].rects == w.pages[i].rects
    ensures w.pdfLoaded && confirmed ==> forall i :: 0 <= i < |w.pages| ==>
      if Reached(data, i) then r.pages[i] == HighlightFromOcr(w.pages[i], data[i].value) else r.pages[i] == w.pages[i]
    ensures WellFormed(w) ==> WellFormed(r)
  {
    if !(w.pdfLoaded && confirmed) then w
    else w.(pages := OcrPages(w.pages, data, HighlightFromOcr))
  }
}
