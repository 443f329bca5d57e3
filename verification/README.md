# BlackOutPDF core, modelled in Dafny

BlackOutPDF is a PyQt6 desktop editor for redacting PDF pages. Each page is
rasterised and shown in a `CaviardableImage` widget. On that widget the user
draws blackout and highlight rectangles, places comments, text boxes,
signatures and stamps, and can select, move, resize or delete the placed
items. The main window (`BlackoutPDF`) keeps a history shared by all pages for
undo. It can run OCR to add rectangles from recognised words, and it exports
the annotations onto the PDF with page-space coordinates. A helper module
(`src/utils.py`) encrypts a text with hybrid RSA-OAEP + AES-GCM into a framed,
base64-encoded blob.

The repository holds two versions of the editor, `blackoutpdf.py` and
`BOPDF.py`. Their page widgets are identical and are modelled once. Their
windows differ, and both variants are modelled where they differ: undo,
toggle_theme and OCR.

Modules (one file each):

- `Results` (results.dfy): `Option`, and a `Result` whose `Fail` carries the
  exception the Python code would raise.
- `Framing` (frame.dfy): the `>H` length prefix, Python slice clamping, and the
  blob layout `len(k) ++ k ++ nonce ++ tag ++ ct`, with frame/parse round trips
  in both directions.
- `Hybrid` (hybrid.dfy): `hybrid_encrypt` / `hybrid_decrypt`. The library
  primitives are fields of a `Primitives` record, and the laws the proofs use
  are the predicates `Sound` and `KeyPair`. A small concrete instance of the
  primitives (`Toy`) meets both laws, so the lemmas that assume them are not
  vacuous.
- `Geometry` (geometry.dfy): Qt's `QRect` as Qt stores it (inclusive edges),
  `contains`, `normalized`, `moveTo`, the resize handles and the corner resize
  with its minimum-size guard.
- `Annotations` (annotations.dfy): the per-page state, `set_mode`, hit testing,
  and the press, move, release and key handlers.
- `Lists` (lists.dfy): the list comprehension, `list.remove`, and removal of a
  single match.
- `Editor` (editor.dfy): the window, its history, both undo variants, theme,
  `set_mode_for_all`, signature and stamp placement and both OCR variants.
- `Export` (export.dfy): the pixel-to-page mapping of the export, in exact
  `real` arithmetic.

Points where the code behaves differently from what a reader might expect,
and which the model follows as written:

- `AES.new(sess, AES.MODE_GCM)` gets no nonce, so PyCryptodome picks its
  default of 16 bytes rather than the 12 usual for GCM. The fixed overhead of a
  blob is therefore 34 + len(k) bytes.
- The export applies one scale, page width / raster width, to both axes.
- A polygon-to-rectangle decomposition, an escrow payload codec and restoring
  annotations from a saved file are mentioned for the program, but no source
  file implements them, so they are not modelled.
- The rubber band is `QRect(origin, cursor).normalized()`, and Qt 6's
  `normalized()` turns reversed corners into the edges cursor + 1 and
  origin - 1. A band dragged leftwards or upwards is therefore two pixels
  narrower than one dragged the other way, and the "wider and higher than 5"
  test needs a drag of 7 pixels in those directions but 5 in the others.

Page events are modelled at zoom factor 1.0 with integral cursor positions.
There, `scaled_rect(r)` is `r` and `int(pos / scale)` is `pos`.

## Model

| member | source | states |
|---|---|---|
| `Framing.PackU16` | src/utils.py:13 | `struct.pack(">H", n)` succeeds exactly for 0 <= n <= 65535 and gives two bytes whose big-endian value is n. |
| `Framing.UnpackU16` | src/utils.py:18 | `struct.unpack(">H", b)` succeeds exactly when b has two bytes, and the length it reads is at most 65535. |
| `Framing.PackThenUnpack` | src/utils.py:13-18 | Unpacking a packed length gives the length back. |
| `Framing.UnpackThenPack` | src/utils.py:13-18 | Packing an unpacked length gives the same two bytes back. |
| `Framing.Slice` | src/utils.py:19-20 | A Python slice with non-negative bounds never fails. Its length is the clamped difference of the bounds, and element k is `d[i + k]`. |
| `Framing.Frame` | src/utils.py:13 | Framing fails exactly when the wrapped key is longer than 65535 bytes. The blob is 2 + the field lengths long, its first two bytes unpack to len(k), and the rest is the four fields in order. |
| `Framing.Parse` | src/utils.py:18-20 | Parsing fails only on data shorter than 2 bytes. The prefix and the four slices re-concatenate to the input. The slices are never longer than announced, and they have exactly the announced sizes when the data is long enough. |
| `Framing.PartitionOfSlices` | src/utils.py:19-20 | Adjacent clamped slices from a point inside the data cover the rest of it exactly once. |
| `Framing.ParseOfFrame` | src/utils.py:13-20 | Round trip: with a 16-byte nonce and tag and a key of at most 65535 bytes, parsing the frame returns exactly the framed fields. |
| `Framing.FrameOfParse` | src/utils.py:13-20 | Converse round trip: data long enough for the sizes it announces is exactly the frame of what it parses to. |
| `Hybrid.Seal` | src/utils.py:8-12 | The envelope exists exactly when OAEP wrapping of the session key succeeds. It carries that wrapped key, the given nonce, and the ciphertext and tag GCM produced for the UTF-8 plaintext under the session key and nonce. With sound primitives the tag is 16 bytes and GCM opens the envelope back to the UTF-8 plaintext. |
| `Hybrid.HybridEncrypt` | src/utils.py:7-14 | Encryption succeeds exactly when OAEP succeeds and the wrapped key fits the `>H` prefix. Otherwise, once OAEP has succeeded, it fails with struct.error. |
| `Hybrid.OpenBlob` | src/utils.py:17-22 | Base64 data shorter than the prefix fails with struct.error, before any key is used. |
| `Hybrid.HybridDecrypt` | src/utils.py:16-23 | A plaintext comes back only if base64, parsing and OAEP unwrapping all succeeded and GCM decrypt-and-verify accepted the parsed ciphertext and tag; the text is the UTF-8 decoding of that output. |
| `Hybrid.EncryptShape` | src/utils.py:9-13 | With sound primitives, the decoded blob is 2 + len(k) + 16 + 16 + len(UTF-8 plaintext) bytes long. |
| `Hybrid.DecryptOfEncrypt` | src/utils.py:7-23 | End to end: for a matching key pair and sound primitives, decrypting what encryption produced returns the original text. |
| `Hybrid.ForgedTagRejected` | src/utils.py:22 | Re-framing a genuine envelope with any other 16-byte tag makes decryption fail instead of returning text. |
| `Hybrid.LawsSatisfiable` | src/utils.py:7-23 | The laws assumed of the primitives (GCM opens exactly what it sealed, the codecs round-trip, OAEP unwrapping inverts wrapping) hold together for at least one instance. |
| `Geometry.Normalized` | blackoutpdf.py:250 | Qt 6's `normalized()` leaves a rectangle of non-negative size as it is. Otherwise width and height become the absolute values of the old `width()` and `height()`, and `contains` answers the same for every point. |
| `Geometry.Contains` | blackoutpdf.py:65 | `contains` holds when, on each axis, the point lies between the edges: inclusively when they are in order, exclusively when reversed. A rectangle of width or height 0 contains nothing. |
| `Geometry.ContainsInside` | blackoutpdf.py:65 | For a rectangle of non-negative size, `contains` is membership between the inclusive edges, and an empty rectangle contains nothing. |
| `Geometry.MoveTo` | blackoutpdf.py:238 | `moveTo` puts the top-left corner at the target and keeps width and height. |
| `Geometry.HandleRect` | blackoutpdf.py:92-100 | Each handle is a 12x12 square that contains its corner. |
| `Geometry.HandleAt` | blackoutpdf.py:77-82 | The handle returned contains the point, and no handle is returned exactly when no handle square contains it. |
| `Geometry.HandleAtCorner` | blackoutpdf.py:77-100 | On a rectangle more than 12 pixels wide and high, pressing exactly on a corner grabs that corner's handle. |
| `Geometry.Resize` | blackoutpdf.py:198-223 | The opposite corner never moves. The dragged corner moves to the cursor exactly when both extents measured from the opposite corner exceed 16, and otherwise the rectangle is unchanged. BOPDF.py:249-274 is the same code. |
| `Geometry.ResizeKeepsMinimum` | blackoutpdf.py:198-223 | A rectangle whose extents exceed 16 still does after any corner drag. |
| `Annotations.NewPage` | blackoutpdf.py:21-47 | A new page has no annotations, no mode, no selection and a null rubber band. |
| `Annotations.SetMode` | blackoutpdf.py:49-53 | `set_mode` sets the mode and drops selection, handle and offset. Annotations and drawing state are untouched. |
| `Annotations.SetModeLastWins` | blackoutpdf.py:49-53 | Only the last `set_mode` matters. |
| `Annotations.Topmost` | blackoutpdf.py:63-66 | The reversed scan returns the highest index whose rectangle contains the point, and none exactly when no rectangle contains it. |
| `Annotations.TopmostUnique` | blackoutpdf.py:62-75 | At most one index is topmost at a point, so the hit test's answer is determined. |
| `Annotations.ItemAt` | blackoutpdf.py:62-75 | The hit test returns the topmost text box at the point, else the topmost signature, else the topmost stamp. It returns none exactly when no item of any kind contains the point. BOPDF.py:97-110 is the same code. |
| `Annotations.SelectAt` | blackoutpdf.py:108-122 | Pressing on an item selects it. Either a handle containing the point is grabbed, or (exactly when none is) the offset from the item's top-left to the cursor is kept. |
| `Annotations.AddComment` | blackoutpdf.py:123-133 | A non-blank answer appends one 20x20 comment with its top-left at the click and logs one comment entry with that rectangle. |
| `Annotations.PlaceSignature` | BOPDF.py:182-195 | A click in signature mode appends one signature the size of the pending image with its top-left at the click, logs one entry, returns to no mode and clears the pending images. |
| `Annotations.PlaceStamp` | blackoutpdf.py:148-161 | The same for a pending stamp. |
| `Annotations.AddTextBox` | blackoutpdf.py:162-177 | A non-blank answer appends a text box 200 wide and twice the font size high at the click, with font size 17 when the size dialog is cancelled, and logs one entry. |
| `Annotations.StartDrawing` | blackoutpdf.py:178-185 | A left press in blackout or highlight mode starts a one-pixel rubber band at the click. |
| `Annotations.CommentClickAppends` | blackoutpdf.py:123-133 | In comment mode, a click with a non-blank answer appends exactly a 20x20 comment at the click and logs exactly one entry for it, whatever lies under the click. |
| `Annotations.Place` | blackoutpdf.py:123-177 | A press in a placing mode adds at most one item and logs one entry for exactly what it adds. When nothing is added the items are unchanged. |
| `Annotations.PressInMode` | blackoutpdf.py:123-185 | A press that selects nothing adds at most one item, never removes one, and logs one entry for exactly what it adds. |
| `Annotations.MousePress` | blackoutpdf.py:102-185 | A press never removes an annotation. It adds at most one, logs exactly one history entry for what it adds, and that entry names the page and the added item's rectangle. |
| `Annotations.SetItemRect` | blackoutpdf.py:224-244 | Writing back a moved or resized rectangle changes only the selected item's rectangle in its own list. |
| `Annotations.MouseMove` | blackoutpdf.py:187-251 | A move never adds or removes an annotation. An out-of-range selection raises IndexError, and drawing without an origin raises TypeError. A resize keeps the opposite corner, and a drag keeps the grab offset and the size. While drawing, with the cursor dx, dy from the press point, the rubber band is abs(dx + 1) wide and abs(dy + 1) high: dx + 1 rightwards but abs(dx) - 1 leftwards. It contains the cursor, and the press point, exactly when the drag went neither left nor up. BOPDF.py:235-302 is the same code. |
| `Annotations.MouseRelease` | blackoutpdf.py:253-277 | A release logs one entry exactly when it commits, that is, when the rubber band is wider and higher than 5 in blackout or highlight mode and no item drag is ending. The band goes to `rects` or `highlights` respectively and is reset whether kept or not. The end of an item drag keeps the selection. BOPDF.py:304-331 is the same code. |
| `Annotations.CommitsAfterMove` | blackoutpdf.py:247-260 | The `width() > 5 and height() > 5` test on the band drawn so far holds exactly when, on each axis, the cursor is at least 5 forward or at least 7 back from the press point. |
| `Annotations.DrawGesture` | blackoutpdf.py:178-274 | Press, drag and release in a drawing mode keep the normalised rectangle between the two points exactly when, on each axis, the drag went at least 5 forward (right, down) or at least 7 back (left, up). Otherwise nothing is added. |
| `Annotations.DragDirectionMatters` | blackoutpdf.py:250-259 | A drag from (100, 100) to (106, 106) is kept, while one to (94, 94), as far the other way, is dropped. |
| `Annotations.RemoveItem` | blackoutpdf.py:287-293 | `del` removes exactly element i of the selected kind's list and leaves the other lists alone. |
| `Annotations.KeyPress` | blackoutpdf.py:285-295 | Delete with a selection removes exactly the selected item from its own list and clears the selection, or raises IndexError when the index is out of range. Any other key changes nothing. BOPDF.py:342-355 is the same code. |
| `Annotations.DeleteRevertsAppend` | blackoutpdf.py:285-295 | With the item an action just appended selected, Delete gives back the page's items as they were before the action. |
| `Annotations.Strip` | blackoutpdf.py:127 | `str.strip()` returns a text that neither starts nor ends with whitespace and is no longer than the input. |
| `Annotations.StripCutsBlankEnds` | blackoutpdf.py:127 | What `str.strip()` returns is a slice `s[i:j]` of the text whose cut-off prefix `s[:i]` and suffix `s[j:]` are all whitespace. Together with `Strip`'s ends-not-whitespace ensures, this fixes the result as the text without its leading and trailing whitespace. |
| `Annotations.BlankIffStripEmpty` | blackoutpdf.py:127 | A text is blank (all whitespace) exactly when `strip()` leaves nothing, so the dialogs' `text.strip()` tests are the negation of `IsBlank`. |
| `Editor.Opened` | blackoutpdf.py:679-706 | After loading, page i has index i and no annotations, and the history is empty. |
| `Editor.Press` | blackoutpdf.py:102-185 | At window level, a press changes only its page, grows the history by at most one entry, and grows the page's item count by the same amount. It keeps the window well formed. |
| `Editor.Release` | blackoutpdf.py:253-277 | A release grows the history by one exactly when it commits, changes only its page, and keeps the window well formed. |
| `Editor.UndoWith` | blackoutpdf.py:616-624 | Undo on an empty history changes nothing. Otherwise it fails with IndexError exactly when the last entry's page does not exist. On success the history loses exactly its last entry, that page is replaced by the undone page, and every other page and the theme and loaded flags are unchanged. |
| `Editor.UndoValueOnPage` | blackoutpdf.py:625-636 | A blackout or highlight entry removes the first equal rectangle. Any other entry keeps the items whose rectangle differs from the recorded one, in their order and with their multiplicities, and drops every copy of the others. Other lists are unchanged, and a rectangle that is absent changes nothing. |
| `Editor.UndoByValue` | blackoutpdf.py:616-637 | blackoutpdf.py's undo pops exactly the last entry and undoes it on its page only. It never fails on a well-formed window and keeps it well formed. |
| `Editor.UndoValueOnFreshAppend` | blackoutpdf.py:625-636 | Removing by value the item just appended restores the page's lists, when no earlier item of that list had the same rectangle. |
| `Editor.UndoValueRevertsFreshStep` | blackoutpdf.py:616-637 | Under that condition, an undo right after an adding action restores the page and the history. |
| `Editor.UndoValueBlackoutSameRects` | blackoutpdf.py:625-626 | Undoing a committed blackout always leaves the same multiset of rectangles as before. |
| `Editor.UndoValueDropsTwin` | blackoutpdf.py:616-636 | On any page in comment mode, two clicks at one point with non-blank answers add two comments. One by-value undo then leaves no more comments than before the first click: the earlier comment is lost too. The corrected undo leaves exactly the earlier comment (see Findings). |
| `Editor.TwinUndoOnPage` | blackoutpdf.py:629-630 | On one page, once two comments with the recorded rectangle were appended, the by-value removal drops both and the corrected removal only the later. |
| `Editor.UndoPopOnPage` | BOPDF.py:707-718 | BOPDF.py's undo pops the last element of the named list when that list is non-empty, and leaves every other list alone. |
| `Editor.UndoByPop` | BOPDF.py:701-719 | An empty history is a no-op. Otherwise exactly the last entry is popped and undone on its page only, never failing on a well-formed window. |
| `Editor.UndoPopRevertsStep` | BOPDF.py:701-718 | Undo right after an action that added one item removes exactly that item and its history entry. |
| `Editor.UndoPopAfterRelease` | BOPDF.py:316-328 | Undo right after a committed rubber band restores the page's annotations and the history. |
| `Editor.UndoLastMatchOnPage` | blackoutpdf.py:625-636 | Corrected removal: when some item of the entry's list has the recorded rectangle, exactly the last such item leaves that list and the others stay in order; otherwise the page is unchanged. Other lists are untouched. |
| `Editor.UndoByLastMatch` | blackoutpdf.py:616-637 | Corrected undo: pops the last entry and undoes it on its page only, never failing on a well-formed window. |
| `Editor.UndoLastMatchOnAppend` | blackoutpdf.py:625-636 | On one page, the corrected removal after any append restores every list. |
| `Editor.UndoLastMatchRevertsStep` | blackoutpdf.py:616-637 | With the corrected removal, undo right after any adding action restores the page and the history, with no condition on equal rectangles. |
| `Editor.ApplyDarkTheme` | BOPDF.py:638-642 | The dark theme sets `dark_mode` and changes nothing else. |
| `Editor.ApplyLightTheme` | BOPDF.py:656-660 | The light theme clears `dark_mode` and changes nothing else. |
| `Editor.ToggleTheme` | BOPDF.py:674-681 | Toggling flips `dark_mode` and leaves pages and history alone. |
| `Editor.ToggleThemeByNegation` | blackoutpdf.py:594-600 | blackoutpdf.py's toggle (negate, then apply) gives the same window as BOPDF.py's branch. |
| `Editor.ToggleThemeTwice` | BOPDF.py:674-681 | Toggling twice restores the window. |
| `Editor.SetModeForAll` | BOPDF.py:683-688 | Every page gets the mode and loses its selection, and no annotation changes. |
| `Editor.StartSignaturePlacement` | BOPDF.py:721-736 | A cancelled or invalid image changes nothing. Otherwise every page enters signature mode with the scaled image pending (as both image and original) and no selection, and no annotation changes. |
| `Editor.PlacementThenClick` | BOPDF.py:182-195 | After placement starts, a click anywhere on a page appends the signature at the click, logs one entry, and leaves that page in no mode. |
| `Editor.StartStampPlacement` | BOPDF.py:738-753 | A cancelled or invalid image changes nothing. Otherwise every page enters stamp mode through `set_mode` with the scaled image pending as stamp and original, and no selection. No annotation changes. |
| `Editor.StartPlacementDirect` | blackoutpdf.py:639-672 | blackoutpdf.py's signature and stamp starts: nothing on a cancelled or invalid image. Otherwise every page gets the mode, the scaled image pending and the unscaled one as its original. Selection, handle and offset are kept, because the mode is assigned without `set_mode`. No annotation changes. |
| `Editor.PlacementStartsAgree` | blackoutpdf.py:639-672 | Where no page has a selection, handle or offset and the image is its own original, blackoutpdf.py's start gives the same window as BOPDF.py's (BOPDF.py:721-753). |
| `Editor.DirectPlacementThenClick` | blackoutpdf.py:639-672 | After blackoutpdf.py's start, a click on any page places the scaled image with its original, logs one entry and leaves no mode, even on a page that kept a selection. |
| `Editor.BoxRect` | blackoutpdf.py:837-839 | An OCR box becomes `QRect(left, top, width, height)`. |
| `Editor.RedactFromOcr` | blackoutpdf.py:834-839 | OCR replaces the page's rectangles with one per non-blank box, at most one per box and every non-blank box present. A page with no text loses all its blackouts. Other lists are untouched. |
| `Editor.RedactFromOcrAppend` | blackoutpdf.py:834-839 | The OCR rectangles follow the boxes in order: one more box adds its rectangle at the end exactly when its text is not blank. |
| `Editor.HighlightFromOcr` | BOPDF.py:838-843 | OCR keeps the existing highlights and appends only rectangles wider than 18 and higher than 10, including every such box with non-blank text. Other lists are untouched. |
| `Editor.HighlightFromOcrAppend` | BOPDF.py:838-843 | The appended highlights follow the boxes in order: one more box adds its rectangle at the end exactly when it has non-blank text, w > 18 and h > 10. |
| `Editor.ReadPrefix` | blackoutpdf.py:827-843 | The pages processed are those before the first page whose OCR raised: all of them were read, and the next one, if any, raised. |
| `Editor.OcrPages` | blackoutpdf.py:829-843 | Pages are processed in order. The first page whose OCR raised stops the loop, leaving it and all later pages unchanged. |
| `Editor.RunOcrRedact` | blackoutpdf.py:825-843 | Without a PDF nothing changes. Otherwise each page reached is redacted from its boxes. The history is never touched, and the window stays well formed. |
| `Editor.RunOcrHighlight` | BOPDF.py:822-847 | Without a PDF or without confirmation nothing changes. Otherwise each page reached gets its OCR highlights. Blackouts and history are never touched. |
| `Export.Scale` | blackoutpdf.py:739 | The scale exists exactly when the raster width is non-zero. Scale times raster width is the page width, and the scale is positive for positive widths. |
| `Export.MapRect` | blackoutpdf.py:741-746 | The PDF rectangle's top-left is the pixel top-left times the scale, and its width and height are the pixel width and height times the same scale. |
| `Export.MapRectOrdered` | blackoutpdf.py:741-746 | With a positive scale and non-negative size, x0 <= x1 and y0 <= y1. |
| `Export.MapRectCoversPixels` | blackoutpdf.py:740-747 | Every pixel of a rectangle, as a unit square, lies inside its mapped PDF rectangle. |
| `Export.MapRectExample` | blackoutpdf.py:739-746 | A 300-pixel raster of a 600-unit page maps (10, 10, 20x20) to (20, 20)-(60, 60). |
| `Export.ExportPage` | blackoutpdf.py:737-810 | A page fails only on a zero raster width. Otherwise every blackout becomes a redaction and every highlight a highlight, one for one and in order. Signatures then stamps become images. Text boxes keep their text with the font size scaled, and comments become notes at their scaled top-left. |
| `Export.ExportRedactsEveryBlackoutPixel` | blackoutpdf.py:737-747 | For positive widths, every pixel of every blackout lies inside the redaction exported for it. |
| `Export.ExportAfterCommit` | blackoutpdf.py:740-756 | Releasing a committed rubber band changes the page's export by exactly one output, appended last: a redaction of the band for a blackout, a highlight annotation for a highlight. Everything else the page exports is unchanged. |
| `Lists.FilterPicksKept` | blackoutpdf.py:630 | A list comprehension returns the elements at the indices its condition accepts, in increasing index order. |
| `Lists.FilterCounts` | blackoutpdf.py:630 | Every accepted value keeps all its copies and every rejected value loses all of them. |
| `Lists.FilterMembers` | blackoutpdf.py:630 | Everything returned is accepted and comes from the list, and every accepted element is returned. |
| `Lists.FilterConcat` | blackoutpdf.py:630 | The comprehension distributes over concatenation. |
| `Lists.DropKeyed` | blackoutpdf.py:629-636 | `[c for c in s if c[0] != data]` keeps exactly the elements whose rectangle is not `data`, in order and with multiplicities, and is the identity when no rectangle is `data`. |
| `Lists.RemoveFirst` | blackoutpdf.py:625-628 | `if data in s: s.remove(data)` drops the element at the first index holding `data`, so one copy fewer, and changes nothing when `data` is absent. |
| `Lists.RemoveFirstOfAppend` | blackoutpdf.py:625-628 | Appending a value the list lacks and removing it gives the list back. |
| `Lists.RemoveLastKeyed` | blackoutpdf.py:629-636 | Corrected removal: the element at the last index whose rectangle is `data` is dropped and the rest keep their order; nothing changes when no rectangle is `data`. |

## Left out

- Zoom: `zoom`, `scale_factor` and the `int()` truncation in `scaled_rect` and at the event positions are not modelled. This is floating point; events are taken at factor 1.0.
- Qt painting, stylesheets, message boxes, the text box context menu, `mouseDoubleClickEvent` and `adjust_zoom`. These are UI plumbing. `ApplyDarkTheme` and `ApplyLightTheme` only record the flag.
- Dialogs become parameters: the text and font-size answers of a press, the OCR confirmation, and the chosen signature image.
- The parent-window walk in the mouse handlers is taken to find the window, as it does for widgets placed in the window's layout, so every logged entry reaches the history.
- `Editor.UndoByValue`: the source's history entry holds the same `QRect` object as the item, and a resize or move mutates that object in place. After moving or resizing a signature, stamp or text box, blackoutpdf.py's undo still finds the item by its new rectangle. The model logs the rectangle's value at creation, so its undo does not. Object identity is not modelled.
- Pixmap arithmetic: `scaledToWidth(90)`, `scaled(90, 38, KeepAspectRatio)`, and the refit of a resized signature or stamp. They are a `Picture` parameter and a `FittedTo` marker. A pending pixmap counts as truthy whenever it is present.
- `last.get("page", 0)` in BOPDF.py: every entry is created with a page, so the default is unreachable and a history entry always has one.
- `load_pdf` beyond its resulting state (`Editor.Opened`): rendering, temporary files and encrypted-PDF passwords are document I/O.
- PyMuPDF calls (`add_redact_annot`, `insert_image`, `insert_textbox`, `apply_redactions`, the encrypted `save`) and BOPDF.py's rasterising export. These are foreign document I/O. `Export.ExportPage` describes what is written, not how, and the `pdf[idx]` lookup of a missing page is not modelled.
- Text box colours are kept as their `#rrggbb` string; `QColor.redF()` and its siblings are not modelled.
- The tesseract invocation and image loading: each page's result is a parameter, a list of boxes or `None` when that page raised. The dict-of-columns format is read as a list of boxes.
- RSA key import, OAEP, AES-GCM, base64 and UTF-8 are library primitives, and `get_random_bytes` and the GCM nonce are randomness. The primitives are function parameters whose laws are the `Sound` and `KeyPair` predicates, and the random values are parameters. Key-import failures fold into `RsaError`.
- `Hybrid.HybridEncrypt`: `plaintext.encode()` (src/utils.py:12) raises UnicodeEncodeError on a Python string holding a lone surrogate. A Dafny `string` holds only Unicode scalar values, so such a text cannot be passed in, `utf8Encode` is total, and that error path is not modelled.
- `Hybrid.Seal`: PKCS1_OAEP encryption (src/utils.py:10) draws a fresh random padding seed on every call. `oaepEncrypt` is a deterministic function of key and message, as if that seed were fixed. The laws and lemmas hold for every such choice, but the model does not say that two encryptions of one session key differ.
- `Hybrid.OpenBlob`: its contract states only the short-input failure; its success case is stated through `Hybrid.HybridDecrypt`.

## Findings

| source | as written | input that shows it | evidently intended | confidence | as-written member | corrected member |
|---|---|---|---|---|---|---|
| blackoutpdf.py:629-636 | Undoing a comment, signature, stamp or text box keeps only the items whose rectangle differs from the recorded one, so it removes every item with an equal rectangle. | In comment mode, click twice at the same point and answer "a" and then "b". This gives two 20x20 comments with equal rectangles. One undo removes both. | Undo removes only the item the undone action added, as BOPDF.py's stack pop does. | medium; not executed | `Editor.UndoValueDropsTwin` | `Editor.UndoByLastMatch` |
