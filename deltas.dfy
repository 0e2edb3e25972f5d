/** The change record every document mutation produces: an insertion or
    removal of `lines` between `start` and `end`. Removals carry the text
    they removed, so a delta can be inverted. */
module Deltas {
  import opened Positions
  import opened Lines

  datatype Action = Insert | Remove

  datatype Delta = Delta(action: Action, start: Position, end: Position, lines: Lines)

  /** `d` describes an edit that can be applied to `ls`: an insertion at a
      valid position whose end is where its text ends, or a removal of a
      valid, ordered span whose text it records. */
  predicate Applicable(ls: Lines, d: Delta) {
    match d.action
    case Insert =>
      ValidPos(ls, d.start) && |d.lines| >= 1 && d.end == InsertEnd(d.start, d.lines)
    case Remove =>
      ValidPos(ls, d.start) && ValidPos(ls, d.end) && AtOrBefore(d.start, d.end)
      && d.lines == TextInRange(ls, d.start, d.end)
  }

  /** The lines after the edit. */
  function Apply(ls: Lines, d: Delta): (r: Lines)
    requires Applicable(ls, d)
    ensures d.action == Insert ==> |r| == |ls| + (d.end.row - d.start.row)
    ensures d.action == Remove ==> |r| == |ls| - (d.end.row - d.start.row)
    ensures |ls| >= 1 ==> |r| >= 1
  {
    match d.action
    case Insert => InsertAt(ls, d.start, d.lines)
    case Remove => RemoveRange(ls, d.start, d.end)
  }

  /** The opposite edit: the same span and text with the action swapped. */
  function Invert(d: Delta): (r: Delta) {
    Delta(if d.action == Insert then Remove else Insert, d.start, d.end, d.lines)
  }

  /** Undo: applying a delta and then its inverse restores the lines, in
      both directions (remove after insert, insert after remove). */
  lemma ApplyInvert(ls: Lines, d: Delta)
    requires Applicable(ls, d)
    ensures Applicable(Apply(ls, d), Invert(d))
    ensures Apply(Apply(ls, d), Invert(d)) == ls
  {
    match d.action
    case Insert => RemoveUndoesInsert(ls, d.start, d.lines);
    case Remove => InsertUndoesRemove(ls, d.start, d.end);
  }

  /** A delta with nothing in it: one empty line inserted, or an empty span
      removed. The document skips such deltas. */
  predicate IsEmptyDelta(d: Delta) {
    match d.action
    case Insert => |d.lines| == 1 && d.lines[0] == ""
    case Remove => d.start == d.end
  }

  /** An empty delta leaves the lines as they were, which is why the
      document may skip it. */
  lemma EmptyDeltaKeepsLines(ls: Lines, d: Delta)
    requires Applicable(ls, d) && IsEmptyDelta(d)
    ensures Apply(ls, d) == ls
  {
    var line := ls[d.start.row];
    assert line[..d.start.column] + line[d.start.column..] == line;
    assert ls == ls[..d.start.row] + [line] + ls[d.start.row + 1..];
    if d.action == Insert {
      var pre, suf := line[..d.start.column], line[d.start.column..];
      assert d.lines == [""];
      assert pre + "" + suf == line;
      assert Merge(pre, d.lines, suf) == [line];
    } else {
      assert RemoveRange(ls, d.start, d.end) == ls[..d.start.row] + [line] + ls[d.start.row + 1..];
    }
  }

  /** The delta of `insertMergedLines(start, block)` on `ls`: it applies
      wherever `start` is a position of `ls`, and merges the block in there. */
  function InsertDelta(ls: Lines, start: Position, block: Lines): (d: Delta)
    requires |block| >= 1
    ensures ValidPos(ls, start) ==> Applicable(ls, d) && Apply(ls, d) == InsertAt(ls, start, block)
  {
    Delta(Insert, start, InsertEnd(start, block), block)
  }

  /** The delta of `remove(range)` on `ls`. */
  function RemoveDelta(ls: Lines, start: Position, end: Position): (d: Delta)
    requires ValidPos(ls, start) && ValidPos(ls, end) && AtOrBefore(start, end)
    ensures Applicable(ls, d) && d.action == Remove
    ensures d.start == start && d.end == end
  {
    Delta(Remove, start, end, TextInRange(ls, start, end))
  }
}
