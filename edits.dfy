/** The deltas that the document's whole-line and line-joining mutators
    produce, and what each does to the lines. */
module Edits {
  import opened Positions
  import opened Lines
  import opened Deltas
  import opened Remapping

  /** `insertFullLines(row, block)`: the lines of `block` placed before
      `row`. Before an existing row this is an insertion of `block` plus an
      empty last line at (row, 0), spanning (row, 0) to (row + |block|, 0);
      after the last row the block instead follows a line break at the end
      of the last line. */
  function FullLinesInsertDelta(ls: Lines, row: nat, block: Lines): (d: Delta)
    requires |ls| >= 1 && row <= |ls|
    ensures Applicable(ls, d) && d.action == Insert
    ensures Apply(ls, d) == ls[..row] + block + ls[row..]
    ensures row < |ls| ==> d.start == Position(row, 0) && d.end == Position(row + |block|, 0)
  {
    FullLinesInsertEffect(ls, row, block);
    if row < |ls| then InsertDelta(ls, Position(row, 0), block + [""])
    else InsertDelta(ls, Position(row - 1, |ls[row - 1]|), [""] + block)
  }

  lemma FullLinesInsertEffect(ls: Lines, row: nat, block: Lines)
    requires |ls| >= 1 && row <= |ls|
    ensures row < |ls| ==>
              InsertAt(ls, Position(row, 0), block + [""]) == ls[..row] + block + ls[row..]
    ensures row == |ls| ==>
              InsertAt(ls, Position(row - 1, |ls[row - 1]|), [""] + block) == ls[..row] + block + ls[row..]
  {
    if row < |ls| {
      var line := ls[row];
      var b := block + [""];
      assert line[..0] == "" && line[0..] == line;
      if |block| == 0 {
        assert b == [""];
        assert "" + "" + line == line;
        assert Merge("", b, line) == [line];
      } else {
        assert b[0] == block[0] && b[|b| - 1] == "";
        assert "" + block[0] == block[0] && "" + line == line;
        assert b[1..|b| - 1] == block[1..];
        assert Merge("", b, line) == [block[0]] + block[1..] + [line];
        assert [block[0]] + block[1..] == block;
      }
      assert ls[row..] == [line] + ls[row + 1..];
    } else {
      var r := row - 1;
      var line := ls[r];
      var b := [""] + block;
      assert line[..|line|] == line && line[|line|..] == "";
      if |block| == 0 {
        assert b == [""];
        assert line + "" + "" == line;
        assert Merge(line, b, "") == [line];
      } else {
        assert b[0] == "" && b[|b| - 1] == block[|block| - 1];
        assert line + "" == line && block[|block| - 1] + "" == block[|block| - 1];
        assert b[1..|b| - 1] == block[..|block| - 1];
        assert Merge(line, b, "") == [line] + block[..|block| - 1] + [block[|block| - 1]];
        assert block[..|block| - 1] + [block[|block| - 1]] == block;
      }
      assert ls[..row] == ls[..r] + [line];
    }
  }

  /** `removeFullLines(first, last)` with `last` already clamped to the
      final row. Rows first..last go as whole lines: with a later row left,
      by removing (first, 0) to (last + 1, 0); when they run to the final
      row, by removing the line break before `first` as well; and when they
      are every row, the buffer keeps one empty line. */
  function FullLinesRemoveDelta(ls: Lines, first: nat, last: nat): (d: Delta)
    requires first <= last < |ls|
    ensures Applicable(ls, d) && d.action == Remove
    ensures Apply(ls, d) == if first == 0 && last == |ls| - 1 then [""] else ls[..first] + ls[last + 1..]
    ensures last < |ls| - 1 ==> d.start == Position(first, 0) && d.end == Position(last + 1, 0)
  {
    var deleteFirstNewLine := last == |ls| - 1 && first > 0;
    var deleteLastNewLine := last < |ls| - 1;
    var start := if deleteFirstNewLine then Position(first - 1, |ls[first - 1]|) else Position(first, 0);
    var end := if deleteLastNewLine then Position(last + 1, 0) else Position(last, |ls[last]|);
    FullLinesRemoveEffect(ls, first, last, start, end);
    RemoveDelta(ls, start, end)
  }

  lemma FullLinesRemoveEffect(ls: Lines, first: nat, last: nat, start: Position, end: Position)
    requires first <= last < |ls|
    requires start == if last == |ls| - 1 && first > 0 then Position(first - 1, |ls[first - 1]|) else Position(first, 0)
    requires end == if last < |ls| - 1 then Position(last + 1, 0) else Position(last, |ls[last]|)
    ensures ValidPos(ls, start) && ValidPos(ls, end) && AtOrBefore(start, end)
    ensures RemoveRange(ls, start, end) == if first == 0 && last == |ls| - 1 then [""] else ls[..first] + ls[last + 1..]
  {
    var rm := RemoveRange(ls, start, end);
    if last < |ls| - 1 {
      var line := ls[last + 1];
      assert ls[first][..0] + line[0..] == line;
      assert rm == ls[..first] + [line] + ls[last + 2..];
      assert ls[last + 1..] == [line] + ls[last + 2..];
    } else if first > 0 {
      var line := ls[first - 1];
      assert line[..|line|] == line;
      assert ls[last][|ls[last]|..] == "";
      assert line[..|line|] + ls[last][|ls[last]|..] == line;
      assert ls[last + 1..] == [];
      assert rm == ls[..first - 1] + [line];
      assert ls[..first] == ls[..first - 1] + [line];
    } else {
      assert ls[last][|ls[last]|..] == "";
    }
  }

  /** `removeNewLine(row)`: the line break after `row` goes, joining the
      next row onto it. */
  function NewLineRemoveDelta(ls: Lines, row: nat): (d: Delta)
    requires row + 1 < |ls|
    ensures Applicable(ls, d) && d.action == Remove
    ensures d.start == Position(row, |ls[row]|) && d.end == Position(row + 1, 0)
    ensures Apply(ls, d) == ls[..row] + [ls[row] + ls[row + 1]] + ls[row + 2..]
  {
    assert ls[row][..|ls[row]|] == ls[row] && ls[row + 1][0..] == ls[row + 1];
    RemoveDelta(ls, Position(row, |ls[row]|), Position(row + 1, 0))
  }

  /** Inserting ["", ""] splits the line at the insertion point: it is a
      line break. */
  lemma LineBreakSplitsLine(ls: Lines, s: Position)
    requires ValidPos(ls, s)
    ensures InsertEnd(s, ["", ""]) == Position(s.row + 1, 0)
    ensures InsertAt(ls, s, ["", ""]) ==
              ls[..s.row] + [ls[s.row][..s.column], ls[s.row][s.column..]] + ls[s.row + 1..]
  {
    var line := ls[s.row];
    assert line[..s.column] + "" == line[..s.column];
    assert "" + line[s.column..] == line[s.column..];
  }

  /** Text without a line break lands inside the one line at the insertion
      point and ends `|text|` columns further on. */
  lemma SingleLineInsert(ls: Lines, s: Position, text: string)
    requires ValidPos(ls, s) && '\n' !in text
    ensures SplitLines(text) == [text]
    ensures InsertEnd(s, [text]) == Position(s.row, s.column + |text|)
    ensures InsertAt(ls, s, [text]) ==
              ls[..s.row] + [ls[s.row][..s.column] + text + ls[s.row][s.column..]] + ls[s.row + 1..]
  {
    SplitNoBreak(text);
    var r, line := s.row, ls[s.row];
    var joined := line[..s.column] + text + line[s.column..];
    assert Merge(line[..s.column], [text], line[s.column..]) == [joined];
  }

  /** How `insertFullLines(row, block)` moves an anchor. Before an existing
      row: anchors above `row`, and an anchor at (row, 0) with
      `insertRight`, stay; every other anchor moves down by the number of
      inserted lines and keeps its column. After the last row: only an
      anchor at the very end of the document moves, without `insertRight`,
      to the end of the appended block. */
  lemma FullLinesInsertMovesAnchor(ls: Lines, row: nat, block: Lines, p: Position, insertRight: bool)
    requires |ls| >= 1 && row <= |ls| && ValidPos(ls, p)
    ensures AtOrBefore(FullLinesInsertDelta(ls, row, block).start, FullLinesInsertDelta(ls, row, block).end)
    ensures var q := Remap(p, FullLinesInsertDelta(ls, row, block), insertRight);
            (row < |ls| && (p.row < row || (p == Position(row, 0) && insertRight)) ==> q == p) &&
            (row < |ls| && (p.row > row || (p.row == row && (p.column > 0 || !insertRight))) ==>
               q == Position(p.row + |block|, p.column))
    ensures var q := Remap(p, FullLinesInsertDelta(ls, row, block), insertRight);
            var last := Position(|ls| - 1, |ls[|ls| - 1]|);
            (row == |ls| && (p != last || insertRight || block == []) ==> q == p) &&
            (row == |ls| && p == last && !insertRight && block != [] ==>
               q == Position(|ls| - 1 + |block|, |block[|block| - 1]|))
  {
    ApplicableOrdered(ls, FullLinesInsertDelta(ls, row, block));
  }

  /** How `removeFullLines(first, last)` (with `last` clamped) moves an
      anchor. Anchors above `first` stay. Anchors on the removed rows land
      at (first, 0) when a later row is left or every row goes; when the
      removed rows run to the final row after other rows, they land at the
      end of row first - 1. Anchors below the removed rows move up by their
      number and keep their column. */
  lemma FullLinesRemoveMovesAnchor(ls: Lines, first: nat, last: nat, p: Position, insertRight: bool)
    requires first <= last < |ls| && ValidPos(ls, p)
    ensures AtOrBefore(FullLinesRemoveDelta(ls, first, last).start, FullLinesRemoveDelta(ls, first, last).end)
    ensures var q := Remap(p, FullLinesRemoveDelta(ls, first, last), insertRight);
            (p.row < first ==> q == p) &&
            (first <= p.row <= last && (last < |ls| - 1 || first == 0) ==> q == Position(first, 0)) &&
            (first <= p.row <= last && last == |ls| - 1 && first > 0 ==> q == Position(first - 1, |ls[first - 1]|)) &&
            (p.row > last ==> q == Position(p.row - (last - first + 1), p.column))
  {
    ApplicableOrdered(ls, FullLinesRemoveDelta(ls, first, last));
  }

  /** How `removeNewLine(row)` moves an anchor: one on the next row lands on
      `row`, after its old text; rows further down move up by one; anchors
      on `row` or above stay. */
  lemma NewLineRemoveMovesAnchor(ls: Lines, row: nat, p: Position, insertRight: bool)
    requires row + 1 < |ls| && ValidPos(ls, p)
    ensures AtOrBefore(NewLineRemoveDelta(ls, row).start, NewLineRemoveDelta(ls, row).end)
    ensures var q := Remap(p, NewLineRemoveDelta(ls, row), insertRight);
            (p.row <= row ==> q == p) &&
            (p.row == row + 1 ==> q == Position(row, |ls[row]| + p.column)) &&
            (p.row > row + 1 ==> q == Position(p.row - 1, p.column))
  {
  }

  /** A removal that starts at the anchor leaves it where it is, whatever
      its flag: the text after it closes up onto it. */
  lemma RemoveStartingAtAnchor(ls: Lines, p: Position, e: Position, insertRight: bool)
    requires ValidPos(ls, p) && ValidPos(ls, e) && AtOrBefore(p, e)
    ensures Remap(p, RemoveDelta(ls, p, e), insertRight) == p
  {
  }
}
