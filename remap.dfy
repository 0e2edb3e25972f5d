/** How an anchor's position follows an edit. Every anchor applies the same
    total transform to its own position; the only per-anchor input is the
    `insertRight` tie-break flag, which decides whether an anchor sitting
    exactly at an insertion point stays before the new text or after it. */
module Remapping {
  import opened Positions
  import opened Lines
  import opened Deltas

  /** An insertion of the span [s, e). Anchors before `s`, and an anchor at
      `s` with `insertRight`, stay; the others move by the inserted span:
      down by its rows, and along the row by its columns when they were on
      the row of `s`. */
  function RemapInsert(p: Position, s: Position, e: Position, insertRight: bool): (q: Position)
    requires AtOrBefore(s, e)
    ensures AtOrBefore(p, q)
    ensures Before(p, s) ==> q == p
  {
    if Before(p, s) || (p == s && insertRight) then p
    else Position(p.row + (e.row - s.row),
                  if p.row == s.row then p.column + e.column - s.column else p.column)
  }

  /** A removal of the span [s, e). Anchors before `s` stay, anchors at or
      after `e` move back by the removed span, anchors inside it collapse
      onto `s`. */
  function RemapRemove(p: Position, s: Position, e: Position): (q: Position)
    requires AtOrBefore(s, e)
    ensures AtOrBefore(q, p)
    ensures Before(p, s) ==> q == p
  {
    if Before(p, s) then p
    else if !Before(p, e) then
      Position(p.row - (e.row - s.row),
               if p.row == e.row then p.column - e.column + s.column else p.column)
    else s
  }

  /** The anchor transform for a delta (the anchor's onChange). */
  function Remap(p: Position, d: Delta, insertRight: bool): (q: Position)
    requires AtOrBefore(d.start, d.end)
  {
    match d.action
    case Insert => RemapInsert(p, d.start, d.end, insertRight)
    case Remove => RemapRemove(p, d.start, d.end)
  }

  lemma ApplicableOrdered(ls: Lines, d: Delta)
    requires Applicable(ls, d)
    ensures AtOrBefore(d.start, d.end)
  {
  }

  /** An anchor at a valid position is still at a valid position after an
      insertion is applied to the lines. */
  lemma InsertKeepsAnchorValid(ls: Lines, p: Position, s: Position, block: Lines, insertRight: bool)
    requires ValidPos(ls, p) && ValidPos(ls, s) && |block| >= 1
    ensures ValidPos(InsertAt(ls, s, block), RemapInsert(p, s, InsertEnd(s, block), insertRight))
  {
    var e := InsertEnd(s, block);
    var ls' := InsertAt(ls, s, block);
    var q := RemapInsert(p, s, e, insertRight);
    var line := ls[s.row];
    var n := |block|;
    var m := Merge(line[..s.column], block, line[s.column..]);
    assert ls' == ls[..s.row] + m + ls[s.row + 1..];
    if p.row < s.row {
      assert ls'[p.row] == ls[p.row];
    } else if p.row > s.row {
      assert ls'[q.row] == ls[p.row];
    } else if q == p {
      assert ls'[s.row] == m[0];
      assert |m[0]| >= s.column;
    } else {
      assert ls'[e.row] == m[n - 1];
    }
  }

  /** An anchor at a valid position is still at a valid position after a
      removal is applied to the lines. */
  lemma RemoveKeepsAnchorValid(ls: Lines, p: Position, s: Position, e: Position)
    requires ValidPos(ls, p) && ValidPos(ls, s) && ValidPos(ls, e) && AtOrBefore(s, e)
    ensures ValidPos(RemoveRange(ls, s, e), RemapRemove(p, s, e))
  {
    var ls' := RemoveRange(ls, s, e);
    var q := RemapRemove(p, s, e);
    assert ls'[s.row] == ls[s.row][..s.column] + ls[e.row][e.column..];
    if p.row < s.row {
      assert ls'[p.row] == ls[p.row];
    } else if p.row > e.row {
      assert ls'[q.row] == ls'[s.row + 1..][p.row - e.row - 1] == ls[p.row];
    }
  }

  /** Anchors stay valid positions: the property Document relies on to
      keep every registered anchor inside the buffer. */
  lemma RemapKeepsAnchorValid(ls: Lines, p: Position, d: Delta, insertRight: bool)
    requires Applicable(ls, d) && ValidPos(ls, p)
    ensures AtOrBefore(d.start, d.end)
    ensures ValidPos(Apply(ls, d), Remap(p, d, insertRight))
  {
    match d.action
    case Insert => InsertKeepsAnchorValid(ls, p, d.start, d.lines, insertRight);
    case Remove => RemoveKeepsAnchorValid(ls, p, d.start, d.end);
  }

  /** An empty delta moves no anchor. */
  lemma EmptyDeltaKeepsAnchor(ls: Lines, p: Position, d: Delta, insertRight: bool)
    requires Applicable(ls, d) && IsEmptyDelta(d)
    ensures AtOrBefore(d.start, d.end)
    ensures Remap(p, d, insertRight) == p
  {
  }

  /** Edits keep anchors in order: two anchors with the same tie-break flag
      never cross. */
  lemma RemapMonotone(p1: Position, p2: Position, d: Delta, insertRight: bool)
    requires AtOrBefore(d.start, d.end) && AtOrBefore(p1, p2)
    ensures AtOrBefore(Remap(p1, d, insertRight), Remap(p2, d, insertRight))
  {
  }

  /** Inserting a span and removing it again puts every anchor back where
      it was. */
  lemma RemoveUndoesInsertForAnchors(p: Position, s: Position, e: Position, insertRight: bool)
    requires AtOrBefore(s, e)
    ensures RemapRemove(RemapInsert(p, s, e, insertRight), s, e) == p
  {
  }

  /** Removing a span and inserting it again puts back every anchor strictly
      before its start or strictly after its end. An anchor at its end is
      put back only without `insertRight` (with it, the anchor stays at the
      start). Anchors inside the span had collapsed and end at its start
      with `insertRight`, at its end without. */
  lemma InsertUndoesRemoveForAnchors(p: Position, s: Position, e: Position, insertRight: bool)
    requires AtOrBefore(s, e)
    ensures Before(p, s) || Before(e, p) ==> RemapInsert(RemapRemove(p, s, e), s, e, insertRight) == p
    ensures p == e ==> RemapInsert(RemapRemove(p, s, e), s, e, insertRight) == if insertRight then s else e
    ensures AtOrBefore(s, p) && Before(p, e) ==>
              RemapInsert(RemapRemove(p, s, e), s, e, insertRight) == if insertRight then s else e
  {
  }

  /** An anchor before the insertion point (or at it, with `insertRight`)
      stays and keeps the text before it on its line; any other anchor
      keeps the text after it: the anchor stays attached to the same
      characters. */
  lemma InsertKeepsAnchorText(ls: Lines, p: Position, s: Position, block: Lines, insertRight: bool)
    requires ValidPos(ls, p) && ValidPos(ls, s) && |block| >= 1
    ensures var q := RemapInsert(p, s, InsertEnd(s, block), insertRight);
            var ls' := InsertAt(ls, s, block);
            var stays := Before(p, s) || (p == s && insertRight);
            ValidPos(ls', q) &&
            (stays ==> q == p && ls'[q.row][..q.column] == ls[p.row][..p.column]) &&
            (!stays ==> ls'[q.row][q.column..] == ls[p.row][p.column..])
  {
    InsertKeepsAnchorValid(ls, p, s, block, insertRight);
    var e := InsertEnd(s, block);
    var ls' := InsertAt(ls, s, block);
    var q := RemapInsert(p, s, e, insertRight);
    var line := ls[s.row];
    var pre, suf := line[..s.column], line[s.column..];
    var n := |block|;
    var m := Merge(pre, block, suf);
    assert ls' == ls[..s.row] + m + ls[s.row + 1..];
    if p.row < s.row {
      assert ls'[p.row] == ls[p.row];
    } else if p.row > s.row {
      assert ls'[q.row] == ls[p.row];
    } else if Before(p, s) || (p == s && insertRight) {
      assert ls'[s.row] == m[0];
      assert m[0][..p.column] == pre[..p.column];
    } else if n == 1 {
      assert ls'[s.row] == pre + block[0] + suf;
      assert (pre + block[0] + suf)[q.column..] == suf[p.column - s.column..];
    } else {
      assert ls'[e.row] == block[n - 1] + suf;
      assert (block[n - 1] + suf)[q.column..] == suf[p.column - s.column..];
    }
  }

  /** An anchor before a removed span keeps the text before it on its line;
      one at or after the span keeps the text after it; one inside it lands
      where the span began. */
  lemma RemoveKeepsAnchorText(ls: Lines, p: Position, s: Position, e: Position)
    requires ValidPos(ls, p) && ValidPos(ls, s) && ValidPos(ls, e) && AtOrBefore(s, e)
    ensures var q := RemapRemove(p, s, e);
            var ls' := RemoveRange(ls, s, e);
            ValidPos(ls', q) &&
            (AtOrBefore(p, s) ==> ls'[q.row][..q.column] == ls[p.row][..p.column]) &&
            (AtOrBefore(e, p) ==> ls'[q.row][q.column..] == ls[p.row][p.column..]) &&
            (Before(s, p) && Before(p, e) ==> q == s)
  {
    RemoveKeepsAnchorValid(ls, p, s, e);
    var ls' := RemoveRange(ls, s, e);
    var q := RemapRemove(p, s, e);
    var joined := ls[s.row][..s.column] + ls[e.row][e.column..];
    assert ls'[s.row] == joined;
    if p.row < s.row {
      assert ls'[p.row] == ls[p.row];
    } else if p.row > e.row {
      assert ls'[q.row] == ls'[s.row + 1..][p.row - e.row - 1] == ls[p.row];
    } else if AtOrBefore(p, s) {
      assert joined[..p.column] == ls[s.row][..p.column];
    } else if AtOrBefore(e, p) {
      assert joined[q.column..] == ls[e.row][p.column..];
    }
  }
}
