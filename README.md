# Ace document anchors, modelled in Dafny

This project models the text buffer of the Ace editor and the anchors that live in it.

- **Document.** The buffer is a non-empty list of lines, with the `"\n"` terminators stripped.
- **Anchor.** An anchor is a (row, column) marker registered with a document. Each time the document changes, it moves to follow the text it was next to.

The behaviour is the one `src/anchor_test.js` pins down. That suite requires `./document` and `./anchor` (src/anchor_test.js:3-4), but document.js and anchor.js are not part of this model. What is modelled is therefore the behaviour the test assertions force, stated as a reconstruction. Each test case is a method in `anchor_tests.dfy`. It builds the same document and anchor as the test, performs the same edits, and returns what the test observes. Its postcondition is the test's assertion, and the verifier proves that postcondition from the model.

The model is organised as follows:

- `positions.dfy` (`Positions`): positions, row-major order and ranges.
- `lines.dfy` (`Lines`): the line buffer as a value.
  - Splitting text on `"\n"` and joining lines with `"\n"`, with both round trips.
  - Merging a block of lines in at a position, cutting a span out, and the text inside a span.
  - Insert and remove undo each other.
- `deltas.dfy` (`Deltas`): the change record every mutation produces: insert or remove, start, end and the lines concerned. It covers applying a delta, inverting it (undo in both directions), and the empty delta that the document drops.
- `remap.dfy` (`Remapping`): the anchor transform, one total function per action.
  - Insertion: an anchor before the insertion point stays. So does an anchor exactly at it when `$insertRight` is set. Any other anchor moves by the inserted span.
  - Removal: an anchor before the span stays, an anchor at or after it moves back by the span, and an anchor strictly inside collapses to the start.
  - Anchors stay at valid positions, and two anchors with the same `insertRight` flag never cross each other.
  - Insert followed by remove puts every anchor back. Remove followed by insert puts back every anchor strictly before the span's start or strictly after its end. An anchor at the end is put back only without `insertRight`.
  - Every anchor stays attached to the characters next to it, except an anchor strictly inside a removed span, which lands on the span's start.
- `edits.dfy` (`Edits`): the deltas of the whole-line mutators and of `removeNewLine`, what each does to the lines, and how each moves any anchor.
  - `insertFullLines` at row r is an insert from (r,0) to (r+n,0).
  - `removeFullLines(f,l)` with a later row left is a remove from (f,0) to (l+1,0).
  - `removeNewLine(r)` is a remove from (r, len r) to (r+1, 0).
  - `['', '']` is a line break.
- `text.dfy` (`TextView`): the document read as one string (`getValue`), used as an independent reference for the line model.
  - An insertion splices its text in at the offset of its start.
  - A removal records exactly the text between its end offsets and cuts it out.
  - The row/column anchor rule equals a plain offset rule on that string. An anchor keeps its place in the text, so recomputing its row and column from the re-serialised text agrees with the remapped position.
- `document.dfy` (`Documents`): `Document` and `Anchor` as classes.
  - Every `Document` mutator builds its delta and hands it to `ApplyDelta`. That method updates `lines` and then calls `OnChange` on each registered anchor in registration order.
  - `Anchor` keeps `row`, `column`, `insertRight` and a count of the "change" events it has emitted. The count goes up exactly when the position moved.
  - Invalid arguments are answered with an `Err` result and change nothing.
- `anchor_tests.dfy` (`AnchorTests`): the twenty test cases of src/anchor_test.js:10-181.

Two observations about the suite:

- Several test titles do not match their assertions, and the assertions are what the model meets.
  - "delete character before the anchor should have no effect" (src/anchor_test.js:101-107) deletes the character at the anchor.
  - "delete line which contains the anchor should move anchor to the end of the range" (src/anchor_test.js:133-139) lands the anchor at (1,0), the start of the removed span (1,0)-(2,0).
  - "delete range which contains the anchor should move anchor to the end of the range" (src/anchor_test.js:125-131) removes (0,2)-(1,2), which does not contain the anchor at (1,4). The anchor lies after the span, on its end row, and moves back to (0,4): it keeps its distance from the span's end, two columns.
- Removing whole lines that hold an anchor lands it at column 0 of the first removed row (src/anchor_test.js:133-139), when a later row remains or every row goes. This needs no rule of its own. In those cases the delta of `removeFullLines` starts at (first, 0), and an anchor inside a removed span collapses to the span's start. When the removed rows run to the final row after other rows, the delta starts at the end of row first - 1, and the anchor lands there. `Edits.FullLinesRemoveMovesAnchor` states all cases.

## Model

| member | source | states |
|---|---|---|
| Lines.JoinSplit | src/anchor_test.js:172-180 | joining the lines a text was split into gives back that text, so `getValue` of a fresh document is the text it was built from |
| Lines.SplitJoin | src/anchor_test.js:172-180 | splitting the joined lines gives back the lines when no line holds "\n", so a buffer is determined by its text |
| Lines.InsertAt | src/anchor_test.js:69-83 | a merged insertion adds one line fewer than the block has, and keeps every row before the insertion row and every row after it |
| Lines.RemoveRange | src/anchor_test.js:85-99 | cutting a span removes exactly its row count and keeps every row before the start row and every row after the end row |
| Lines.RemoveUndoesInsert | src/anchor_test.js:18-33 | after merging a block in, the span from the insertion point to its computed end holds exactly the block, and cutting that span restores the lines |
| Lines.InsertUndoesRemove | src/anchor_test.js:85-99 | merging a span's text back in at its start restores the lines, and the text ends where the span ended |
| Deltas.ApplyInvert | src/anchor_test.js:85-99 | the inverse of an applicable delta applies to the result, and applying it restores the lines, for insert and remove alike |
| Deltas.EmptyDeltaKeepsLines | src/anchor_test.js:161-170 | an empty insert or an empty span removal leaves the lines unchanged, which is why the document may drop it |
| Remapping.RemapInsert | src/anchor_test.js:18-83 | an insertion never moves an anchor backwards, and an anchor strictly before the insertion point stays where it is |
| Remapping.RemapRemove | src/anchor_test.js:85-147 | a removal never moves an anchor forwards, and an anchor strictly before the span stays where it is |
| Remapping.RemapKeepsAnchorValid | src/anchor_test.js:85-147 | after any applicable delta, every anchor's new position is a valid position of the new lines |
| Remapping.EmptyDeltaKeepsAnchor | src/anchor_test.js:161-170 | an empty delta moves no anchor |
| Remapping.RemapMonotone | src/anchor_test.js:18-147 | two anchors with the same `insertRight` flag keep their order across any delta |
| Remapping.RemoveUndoesInsertForAnchors | src/anchor_test.js:26-33 | inserting a span and removing it again returns every anchor to its position |
| Remapping.InsertUndoesRemoveForAnchors | src/anchor_test.js:93-99 | removing a span and re-inserting it returns every anchor strictly before its start or strictly after its end; an anchor at its end, or inside it, ends at the start with `insertRight` and at the end without |
| Remapping.InsertKeepsAnchorText | src/anchor_test.js:18-83 | an anchor that stays keeps the text before it on its line; an anchor that moves keeps the text after it |
| Remapping.RemoveKeepsAnchorText | src/anchor_test.js:85-147 | an anchor at or before a removed span keeps the text before it; one at or after it keeps the text after it; one strictly inside lands on the span's start |
| Edits.FullLinesInsertDelta | src/anchor_test.js:35-67 | `insertFullLines(row, block)` gives the lines with `block` placed before `row`, as an insert from (row,0) to (row+n,0) when `row` exists |
| Edits.FullLinesRemoveDelta | src/anchor_test.js:109-115 | `removeFullLines(first, last)` gives the lines without rows first..last, or one empty line when every row goes, as a remove from (first,0) to (last+1,0) when a later row is left |
| Edits.NewLineRemoveDelta | src/anchor_test.js:117-123 | `removeNewLine(row)` removes from (row, len row) to (row+1, 0) and joins the two rows |
| Edits.LineBreakSplitsLine | src/anchor_test.js:69-83 | merging in ['', ''] splits the line at the insertion point and ends at the start of the next row |
| Edits.FullLinesInsertMovesAnchor | src/anchor_test.js:35-67 | `insertFullLines(row, block)` before an existing row keeps anchors above `row` and an anchor at (row,0) with `insertRight`; every other anchor moves down by the block's length and keeps its column; appending after the last row moves only an anchor at the document's end without `insertRight` |
| Edits.FullLinesRemoveMovesAnchor | src/anchor_test.js:109-139 | `removeFullLines(first, last)` keeps anchors above `first`; anchors on removed rows land at (first,0), or at the end of row first-1 when the removed rows run to the final row after other rows; anchors below move up by the number of removed rows and keep their column |
| Edits.NewLineRemoveMovesAnchor | src/anchor_test.js:117-123 | `removeNewLine(row)` takes an anchor at (row+1, c) to (row, len row + c), moves lower anchors up one row and keeps anchors on `row` or above |
| Edits.RemoveStartingAtAnchor | src/anchor_test.js:101-107 | a removal that starts at the anchor leaves it in place, whatever its flag |
| Edits.SingleLineInsert | src/anchor_test.js:18-33 | text without "\n" is one line, goes inside the insertion row and ends `len` columns further on |
| TextView.TextAtPosition | src/anchor_test.js:180 | a valid position cuts the joined text into the text before it and the text from it on |
| TextView.InsertSplicesText | src/anchor_test.js:172-180 | the joined text after a merged insertion is the old text with the block's text spliced in at the insertion offset |
| TextView.RemoveCutsText | src/anchor_test.js:85-99 | the joined text after a removal is the old text with the span's slice cut out |
| TextView.RemovedText | src/anchor_test.js:85-99 | the lines a removal records join to exactly the text between its two offsets |
| TextView.OffsetOrder | src/anchor_test.js:93-99 | offsets into the joined text order valid positions exactly as row-major order does, and distinct positions have distinct offsets |
| TextView.InsertRemapsOffset | src/anchor_test.js:18-83 | an anchor's offset after an insertion is its old offset, pushed by the inserted length unless it was before the insertion point or at it with `insertRight` |
| TextView.RemoveRemapsOffset | src/anchor_test.js:85-147 | an anchor's offset after a removal is its old offset, kept before the span, pulled back by the span's length after it, and the span's start inside it |
| TextView.ApplyEditsText | src/anchor_test.js:149-170 | an applicable delta edits the joined text: an insert splices its lines' text in at its start, a remove cuts out exactly the text it records |
| TextView.RemapTracksOffset | src/anchor_test.js:18-147 | for every applicable delta, the remapped row and column denote the offset the plain text-offset rule gives |
| Documents.Clip | src/anchor_test.js:172-177 | a new anchor's position is valid; a valid request is kept; a column past the line end goes to the line end; a row past the end goes to the end of the last line |
| Documents.Document.constructor | src/anchor_test.js:10-16 | a new document has the text's lines, no anchors, and joins back to the text |
| Documents.Document.GetValue | src/anchor_test.js:180 | the text is the lines joined with "\n", and splitting it gives the lines back when no line holds "\n" |
| Documents.Document.ApplyDelta | src/anchor_test.js:149-170 | the lines become the delta applied to the old lines, and every registered anchor follows the remap rule, counting a change event exactly when it moved; an empty delta is dropped |
| Documents.Document.InsertMergedLines | src/anchor_test.js:69-83 | a merged insertion at a valid position applies its insert delta and answers where the block ends; an invalid position or an empty block changes nothing |
| Documents.Document.Insert | src/anchor_test.js:18-33 | `insert(pos, text)` merges the text's lines in at `pos` and answers its end; empty text and invalid positions change nothing |
| Documents.Document.InsertFullLines | src/anchor_test.js:35-41 | `insertFullLines(row, block)` applies the whole-line insert delta for any row up to the line count; a larger row changes nothing |
| Documents.Document.InsertLines | src/anchor_test.js:43-67 | `insertLines` does what `insertFullLines` does |
| Documents.Document.Remove | src/anchor_test.js:85-107 | `remove(range)` applies the removal of the range when both ends are valid and ordered, and answers its start; other ranges change nothing |
| Documents.Document.RemoveFullLines | src/anchor_test.js:109-115 | `removeFullLines(first, last)` clamps `last` to the final row, applies the whole-line remove delta and answers the removed lines; a first row past the end or after `last` changes nothing |
| Documents.Document.RemoveNewLine | src/anchor_test.js:117-123 | `removeNewLine(row)` applies the join of row and row+1 when there is a next row, otherwise changes nothing |
| Documents.Anchor.constructor | src/anchor_test.js:10-16 | a new anchor belongs to its document, is registered after the anchors already there, sits at the clipped position, has `insertRight` off and has emitted no event |
| Documents.Anchor.OnChange | src/anchor_test.js:149-170 | after a delta the anchor is where the remap rule puts it, keeps its flag, and has emitted one more event exactly when it moved; the early exits for edits on other rows agree with the rule |
| Documents.Anchor.SetPosition | src/anchor_test.js:161-170 | setting a position emits a change event exactly when it differs from the current one |
| AnchorTests.CreateAnchor | src/anchor_test.js:10-16 | a new anchor reports (0,0) and its owning document |
| AnchorTests.InsertTextInSameRowBeforeCursor | src/anchor_test.js:18-24 | inserting "123" at (1,1) moves an anchor at (1,4) to (1,7) |
| AnchorTests.InsertTextAtAnchorWithInsertRight | src/anchor_test.js:26-33 | with `insertRight`, inserting at the anchor leaves it at (1,4) |
| AnchorTests.InsertLinesBeforeCursor | src/anchor_test.js:35-41 | inserting two full lines at row 1 moves (1,4) to (3,4) |
| AnchorTests.InsertLinesAtAnchor | src/anchor_test.js:43-49 | inserting a line at row 1 moves (1,0) to (2,0) |
| AnchorTests.InsertLinesAtAnchorWithInsertRight | src/anchor_test.js:51-58 | with `insertRight`, inserting a line at row 1 leaves (1,0) in place |
| AnchorTests.InsertLinesAtAnchorRowWithColumn | src/anchor_test.js:60-67 | with `insertRight`, inserting a line at row 1 still moves (1,2) to (2,2) |
| AnchorTests.InsertNewLineBeforeCursor | src/anchor_test.js:69-75 | a line break at (0,0) moves (1,4) to (2,4) |
| AnchorTests.InsertNewLineInAnchorLineBeforeAnchor | src/anchor_test.js:77-83 | a line break at (1,2) moves (1,4) to (2,2) |
| AnchorTests.DeleteTextInAnchorLineBeforeAnchor | src/anchor_test.js:85-91 | removing (1,1)-(1,3) moves (1,4) to (1,2) |
| AnchorTests.RemoveRangeContainingAnchor | src/anchor_test.js:93-99 | removing (0,1)-(1,3) moves (0,3) to the range start (0,1) |
| AnchorTests.DeleteCharacterAtAnchor | src/anchor_test.js:101-107 | removing (1,4)-(1,5) leaves (1,4) in place |
| AnchorTests.DeleteLinesBeforeAnchor | src/anchor_test.js:109-115 | removing full lines 1..2 moves (3,4) to (1,4) |
| AnchorTests.RemoveNewLineBeforeCursor | src/anchor_test.js:117-123 | joining rows 0 and 1 moves (1,4) to (0,8) |
| AnchorTests.DeleteRangeEndingInAnchorRow | src/anchor_test.js:125-131 | removing (0,2)-(1,2) moves (1,4) to (0,4) |
| AnchorTests.DeleteLineContainingAnchor | src/anchor_test.js:133-139 | removing full line 1 moves (1,5) to (1,0) |
| AnchorTests.RemoveAfterAnchor | src/anchor_test.js:141-147 | removing (1,4)-(2,2) leaves (1,2) in place |
| AnchorTests.ChangeEventOnMove | src/anchor_test.js:149-159 | removing (0,0)-(2,1) moves (1,5) to (0,0) and emits exactly one change event |
| AnchorTests.NoChangeEventWithoutMove | src/anchor_test.js:161-170 | removing (2,0)-(2,1) emits no change event for an anchor at (1,5) |
| AnchorTests.AnchorPastLastLine | src/anchor_test.js:173-174 | an anchor requested at (2,4) on "juhu\nkinners\n123" is registered as the document's only anchor at the clipped position (2,3), with `insertRight` off |
| AnchorTests.InsertRemoveLinesAtEnd | src/anchor_test.js:172-181 | starting from an anchor clipped to (2,3), removing every line puts it at (0,0); inserting full lines a, b, c at row 0 puts it at (3,0), and the text is "a\nb\nc\n" |

## Left out

- Columns count Unicode scalar values, the characters of a Dafny string, not UTF-16 code units. In JavaScript a character outside the Basic Multilingual Plane has length 2. Inserting one before an anchor on its row moves the anchor 2 columns in JavaScript and 1 column here, and lone surrogates cannot be represented. Every test uses ASCII text.
- Line endings: the buffer splits and joins on "\n" only. Detecting and normalising "\r" and "\r\n", and re-expanding them in `getValue`, are not modelled, because every test uses "\n".
- Events: the event emitter, the `on("change")` subscription and the asynchronous `next` callback (src/anchor_test.js:153-156) are left out. A per-anchor `changeEvents` counter stands in. The event's payload (old and new position) is not modelled.
- Anchor detach, and documents that drop anchors: none of the tests detaches an anchor, so the registry only grows.
- Documents.Document.Insert, Documents.Document.InsertMergedLines, Documents.Document.Remove: a position outside the buffer is refused with `Err(OutOfBounds)` instead of being clipped into it, because no test edits outside the buffer.
- Documents.Document.RemoveFullLines: when `first > 0` and the rows run to the final row, the line break before `first` is removed as well. This is a chosen behaviour; no test fixes it.
- Documents.Document.ApplyDelta: an empty delta (an insert of one empty line, or a removal of an empty span) is dropped without notifying any anchor. This is a chosen behaviour; no test makes an empty delta.
- Documents.Document.InsertMergedLines: an empty block is refused with `Err(EmptyBlock)`. This is a chosen behaviour; no test fixes it.
- Documents.Document.InsertFullLines, Documents.Document.InsertLines: a row past the line count is refused with `Err(OutOfBounds)` instead of being clipped. This is a chosen behaviour; no test fixes it.
- Documents.Document.RemoveFullLines: a first row past the end is refused with `Err(OutOfBounds)`, and `first > last` with `Err(InvalidRange)`. These are chosen behaviours; no test fixes them.
- The `getLength` and `getLine` accessors are not modelled: no test reads them, and they are plain reads of `lines`.
- Documents.Document.RemoveNewLine: on the final row, where there is no next row, the model answers `Err(OutOfBounds)` and changes nothing. No test fixes this case.
- Splitting very large deltas into chunks, the undo manager, rendering and the full Range API (only a start and an end are kept) are left out.
- Rows and columns are `nat`, so negative arguments cannot be expressed.
- Integer widths: positions and lengths are unbounded integers, since JavaScript numbers of this size are exact.
- The assertion helpers and the asyncjs runner (src/anchor_test.js:6, 185-187) are test plumbing and are not modelled.
