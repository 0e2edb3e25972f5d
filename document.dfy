/** The mutable document and the anchors registered with it. The document
    owns its lines; every mutation goes through `ApplyDelta`, which updates
    the lines and then tells each registered anchor, in registration order,
    to follow the delta. An anchor records a "change" event exactly when its
    position moved. */
module Documents {
  import opened Positions
  import opened Lines
  import opened Deltas
  import opened Remapping
  import opened Edits

  datatype Error = OutOfBounds | InvalidRange | EmptyBlock

  datatype Result<T> = Ok(value: T) | Err(error: Error)

  /** Where a new anchor is placed: a row past the end goes to the end of
      the last line, and a column past the end of its line goes to that
      end. A position already in the document is kept as it is. */
  function Clip(ls: Lines, row: nat, column: nat): (p: Position)
    requires |ls| >= 1
    ensures ValidPos(ls, p)
    ensures ValidPos(ls, Position(row, column)) <==> p == Position(row, column)
    ensures row < |ls| && column > |ls[row]| ==> p == Position(row, |ls[row]|)
    ensures row >= |ls| ==> p == Position(|ls| - 1, |ls[|ls| - 1]|)
  {
    if row >= |ls| then Position(|ls| - 1, |ls[|ls| - 1]|)
    else if column > |ls[row]| then Position(row, |ls[row]|)
    else Position(row, column)
  }

  class Document {
    var lines: Lines
    var anchors: seq<Anchor>

    /** The buffer always has a line, each anchor is registered once, and
        every registered anchor belongs here and sits at a valid position. */
    ghost predicate Valid()
      reads this, anchors
    {
      && |lines| >= 1
      && (forall i, j :: 0 <= i < j < |anchors| ==> anchors[i] != anchors[j])
      && (forall a :: a in anchors ==> a.document == this && ValidPos(lines, a.GetPosition()))
    }

    /** The lines became `Apply(old(lines), d)` and every registered anchor
        followed `d`. */
    twostate predicate Edited(d: Delta)
      reads this, anchors
    {
      && Applicable(old(lines), d)
      && lines == Apply(old(lines), d)
      && anchors == old(anchors)
      && forall a :: a in anchors ==> a.Followed(d)
    }

    /** Nothing observable changed: a rejected or empty edit. */
    twostate predicate Untouched()
      reads this, anchors
    {
      && lines == old(lines)
      && anchors == old(anchors)
      && forall a :: a in anchors ==> unchanged(a)
    }

    /** A document holding `text`, split into lines at "\n". */
    constructor (text: string)
      ensures Valid() && anchors == []
      ensures lines == SplitLines(text)
      ensures JoinLines(lines) == text
    {
      lines := SplitLines(text);
      anchors := [];
      JoinSplit(text);
    }

    /** The text, lines joined with "\n" (getValue). Nothing is lost: a
        document whose lines hold no "\n" is given back by splitting it. */
    function GetValue(): (s: string)
      reads this
      requires |lines| >= 1
      ensures (forall i :: 0 <= i < |lines| ==> '\n' !in lines[i]) ==> SplitLines(s) == lines
    {
      if forall i :: 0 <= i < |lines| ==> '\n' !in lines[i] then SplitJoin(lines); JoinLines(lines)
      else JoinLines(lines)
    }

    /** Applies `d` to the lines and notifies every registered anchor. An
        empty delta is dropped: it changes neither the lines nor any
        anchor. */
    method ApplyDelta(d: Delta)
      requires Valid() && Applicable(lines, d)
      modifies this, anchors
      ensures Valid() && Edited(d)
    {
      ApplicableOrdered(lines, d);
      if IsEmptyDelta(d) {
        EmptyDeltaKeepsLines(lines, d);
        forall a | a in anchors
          ensures Remap(a.GetPosition(), d, a.insertRight) == a.GetPosition()
        {
          EmptyDeltaKeepsAnchor(lines, a.GetPosition(), d, a.insertRight);
        }
        return;
      }
      lines := Apply(lines, d);
      var i := 0;
      while i < |anchors|
        invariant 0 <= i <= |anchors|
        invariant lines == Apply(old(lines), d) && anchors == old(anchors)
        invariant forall j, k :: 0 <= j < k < |anchors| ==> anchors[j] != anchors[k]
        invariant forall k :: 0 <= k < i ==> anchors[k].Followed(d)
        invariant forall k :: i <= k < |anchors| ==> unchanged(anchors[k])
      {
        anchors[i].OnChange(d);
        i := i + 1;
      }
      forall a | a in anchors
        ensures ValidPos(lines, a.GetPosition())
      {
        RemapKeepsAnchorValid(old(lines), old(a.GetPosition()), d, a.insertRight);
      }
    }

    /** `insertMergedLines(pos, block)`: the first line of `block` joins the
        text before `pos`, the last joins the text after it. Answers where
        the inserted text ends. */
    method InsertMergedLines(pos: Position, block: Lines) returns (r: Result<Position>)
      requires Valid()
      modifies this, anchors
      ensures Valid()
      ensures !ValidPos(old(lines), pos) ==> r == Err(OutOfBounds) && Untouched()
      ensures ValidPos(old(lines), pos) && |block| == 0 ==> r == Err(EmptyBlock) && Untouched()
      ensures ValidPos(old(lines), pos) && |block| >= 1 ==>
                r == Ok(InsertEnd(pos, block)) && Edited(InsertDelta(old(lines), pos, block))
    {
      if !ValidPos(lines, pos) {
        return Err(OutOfBounds);
      }
      if |block| == 0 {
        return Err(EmptyBlock);
      }
      var d := InsertDelta(lines, pos, block);
      ApplyDelta(d);
      r := Ok(d.end);
    }

    /** `insert(pos, text)`: the text split into lines and merged in at
        `pos`; empty text changes nothing. Answers where the text ends. */
    method Insert(pos: Position, text: string) returns (r: Result<Position>)
      requires Valid()
      modifies this, anchors
      ensures Valid()
      ensures !ValidPos(old(lines), pos) ==> r == Err(OutOfBounds) && Untouched()
      ensures ValidPos(old(lines), pos) && text == "" ==> r == Ok(pos) && Untouched()
      ensures ValidPos(old(lines), pos) && text != "" ==>
                r == Ok(InsertEnd(pos, SplitLines(text))) && Edited(InsertDelta(old(lines), pos, SplitLines(text)))
    {
      if !ValidPos(lines, pos) {
        return Err(OutOfBounds);
      }
      if text == "" {
        return Ok(pos);
      }
      r := InsertMergedLines(pos, SplitLines(text));
    }

    /** `insertFullLines(row, block)`: whole lines placed before `row`
        (`row` may be the line count, to append). */
    method InsertFullLines(row: nat, block: Lines) returns (r: Result<Position>)
      requires Valid()
      modifies this, anchors
      ensures Valid()
      ensures row > |old(lines)| ==> r == Err(OutOfBounds) && Untouched()
      ensures row <= |old(lines)| ==>
                r.Ok? && Edited(FullLinesInsertDelta(old(lines), row, block))
    {
      if row > |lines| {
        return Err(OutOfBounds);
      }
      var d := FullLinesInsertDelta(lines, row, block);
      ApplyDelta(d);
      r := Ok(d.end);
    }

    /** `insertLines(row, block)`: the older name of `insertFullLines`. */
    method InsertLines(row: nat, block: Lines) returns (r: Result<Position>)
      requires Valid()
      modifies this, anchors
      ensures Valid()
      ensures row > |old(lines)| ==> r == Err(OutOfBounds) && Untouched()
      ensures row <= |old(lines)| ==>
                r.Ok? && Edited(FullLinesInsertDelta(old(lines), row, block))
    {
      r := InsertFullLines(row, block);
    }

    /** `remove(range)`: the text of the range cut out. A range reaching
        outside the document, or ending before it starts, is refused.
        Answers the start of the range. */
    method Remove(range: Range) returns (r: Result<Position>)
      requires Valid()
      modifies this, anchors
      ensures Valid()
      ensures !(ValidPos(old(lines), range.start) && ValidPos(old(lines), range.end)) ==>
                r == Err(OutOfBounds) && Untouched()
      ensures ValidPos(old(lines), range.start) && ValidPos(old(lines), range.end) && Before(range.end, range.start) ==>
                r == Err(InvalidRange) && Untouched()
      ensures ValidPos(old(lines), range.start) && ValidPos(old(lines), range.end) && AtOrBefore(range.start, range.end) ==>
                r == Ok(range.start) && Edited(RemoveDelta(old(lines), range.start, range.end))
    {
      if !(ValidPos(lines, range.start) && ValidPos(lines, range.end)) {
        return Err(OutOfBounds);
      }
      if Before(range.end, range.start) {
        return Err(InvalidRange);
      }
      var d := RemoveDelta(lines, range.start, range.end);
      ApplyDelta(d);
      r := Ok(range.start);
    }

    /** `removeFullLines(first, last)`: rows first..last removed as whole
        lines, `last` clamped to the final row; the buffer keeps at least
        one (possibly empty) line. Answers the removed lines. */
    method RemoveFullLines(first: nat, last: nat) returns (r: Result<Lines>)
      requires Valid()
      modifies this, anchors
      ensures Valid()
      ensures first >= |old(lines)| ==> r == Err(OutOfBounds) && Untouched()
      ensures first < |old(lines)| && first > last ==> r == Err(InvalidRange) && Untouched()
      ensures first < |old(lines)| && first <= last ==>
                var clamped := if last < |old(lines)| then last else |old(lines)| - 1;
                r == Ok(old(lines)[first..clamped + 1]) && Edited(FullLinesRemoveDelta(old(lines), first, clamped))
    {
      if first >= |lines| {
        return Err(OutOfBounds);
      }
      if first > last {
        return Err(InvalidRange);
      }
      var clamped := if last < |lines| then last else |lines| - 1;
      var removed := lines[first..clamped + 1];
      ApplyDelta(FullLinesRemoveDelta(lines, first, clamped));
      r := Ok(removed);
    }

    /** `removeNewLine(row)`: row + 1 joined onto row. There must be a next
        row. */
    method RemoveNewLine(row: nat) returns (r: Result<()>)
      requires Valid()
      modifies this, anchors
      ensures Valid()
      ensures row + 1 >= |old(lines)| ==> r == Err(OutOfBounds) && Untouched()
      ensures row + 1 < |old(lines)| ==> r == Ok(()) && Edited(NewLineRemoveDelta(old(lines), row))
    {
      if row + 1 >= |lines| {
        return Err(OutOfBounds);
      }
      ApplyDelta(NewLineRemoveDelta(lines, row));
      r := Ok(());
    }
  }

  class Anchor {
    const document: Document
    var row: nat
    var column: nat
    /** The tie-break flag: when set, an insertion exactly at the anchor
        goes after it (the anchor does not move). */
    var insertRight: bool
    /** How many "change" events this anchor has emitted. */
    var changeEvents: nat

    /** The anchor's position (`getPosition`). */
    function GetPosition(): (p: Position)
      reads this
    {
      Position(row, column)
    }

    /** The anchor moved as `Remap` says, kept its flag, and emitted one
        change event if and only if its position differs. */
    twostate predicate Followed(d: Delta)
      requires AtOrBefore(d.start, d.end)
      reads this
    {
      && insertRight == old(insertRight)
      && GetPosition() == Remap(old(GetPosition()), d, insertRight)
      && changeEvents == old(changeEvents) + (if GetPosition() == old(GetPosition()) then 0 else 1)
    }

    /** A new anchor on `doc` at the clipped position, registered with the
        document after the anchors already there. */
    constructor (doc: Document, row: nat, column: nat)
      requires doc.Valid()
      modifies doc
      ensures doc.Valid() && doc.lines == old(doc.lines) && doc.anchors == old(doc.anchors) + [this]
      ensures document == doc && GetPosition() == Clip(doc.lines, row, column)
      ensures !insertRight && changeEvents == 0
    {
      document := doc;
      var p := Clip(doc.lines, row, column);
      this.row, this.column := p.row, p.column;
      insertRight := false;
      changeEvents := 0;
      new;
      doc.anchors := doc.anchors + [this];
    }

    function GetDocument(): (doc: Document) {
      document
    }

    /** The anchor's reaction to a document change. Edits that cannot reach
        the anchor's row are skipped without computing anything. */
    method OnChange(d: Delta)
      requires AtOrBefore(d.start, d.end)
      modifies this
      ensures Followed(d)
    {
      if d.start.row == d.end.row && d.start.row != row {
        return;
      }
      if d.start.row > row {
        return;
      }
      var p := Remap(GetPosition(), d, insertRight);
      SetPosition(p);
    }

    /** Moves the anchor without clipping and emits a change event if the
        position differs. */
    method SetPosition(p: Position)
      modifies this
      ensures GetPosition() == p && insertRight == old(insertRight)
      ensures changeEvents == old(changeEvents) + (if p == old(GetPosition()) then 0 else 1)
    {
      if p == GetPosition() {
        return;
      }
      row, column := p.row, p.column;
      changeEvents := changeEvents + 1;
    }
  }
}
