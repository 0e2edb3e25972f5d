/** The document seen as one string (getValue): where a position falls in
    that string, what line edits do to it, and how anchors move in it. This
    is a reference for the line-based model: an insertion splices its text
    into the string, a removal cuts a slice out, and an anchor keeps its
    offset relative to the text around it. */
module TextView {
  import opened Positions
  import opened Lines
  import opened Deltas
  import opened Remapping

  /** The text before row `r`'s first character. */
  function RowsBefore(ls: Lines, r: nat): (t: string)
    requires r <= |ls|
  {
    if r == 0 then "" else JoinLines(ls[..r]) + "\n"
  }

  /** The text after row `r`'s last character. */
  function RowsAfter(ls: Lines, r: nat): (t: string)
    requires r < |ls|
  {
    if r == |ls| - 1 then "" else "\n" + JoinLines(ls[r + 1..])
  }

  /** The text before `p` and the text from `p` on. */
  function TextBefore(ls: Lines, p: Position): (t: string)
    requires ValidPos(ls, p)
  {
    RowsBefore(ls, p.row) + ls[p.row][..p.column]
  }

  function TextFrom(ls: Lines, p: Position): (t: string)
    requires ValidPos(ls, p)
  {
    ls[p.row][p.column..] + RowsAfter(ls, p.row)
  }

  /** The offset of `p` in the document's text. */
  function Offset(ls: Lines, p: Position): (k: nat)
    requires ValidPos(ls, p)
  {
    |TextBefore(ls, p)|
  }

  lemma {:induction false} JoinAround(a: Lines, m: Lines, b: Lines)
    requires |m| >= 1
    ensures JoinLines(a + m + b) ==
              (if a == [] then "" else JoinLines(a) + "\n") + JoinLines(m) + (if b == [] then "" else "\n" + JoinLines(b))
  {
    var tail := if b == [] then "" else "\n" + JoinLines(b);
    assert JoinLines(m + b) == JoinLines(m) + tail by {
      if b == [] {
        assert m + b == m;
      } else {
        JoinAppend(m, b);
      }
    }
    if a == [] {
      assert a + m + b == m + b;
    } else {
      assert a + m + b == a + (m + b);
      JoinAppend(a, m + b);
    }
  }

  /** A position cuts the text in two. */
  lemma {:induction false} TextAtPosition(ls: Lines, p: Position)
    requires ValidPos(ls, p)
    ensures JoinLines(ls) == TextBefore(ls, p) + TextFrom(ls, p)
    ensures Offset(ls, p) <= |JoinLines(ls)|
  {
    var r := p.row;
    assert ls == ls[..r] + [ls[r]] + ls[r + 1..];
    JoinAround(ls[..r], [ls[r]], ls[r + 1..]);
    assert ls[r][..p.column] + ls[r][p.column..] == ls[r];
  }

  lemma {:induction false} JoinAppendLast(ls: Lines, suf: string)
    requires |ls| >= 1
    ensures JoinLines(ls[..|ls| - 1] + [ls[|ls| - 1] + suf]) == JoinLines(ls) + suf
  {
    var n := |ls|;
    var init, last := ls[..n - 1], ls[n - 1];
    if n == 1 {
      assert init + [last + suf] == [last + suf];
      assert ls == [last];
    } else {
      JoinAppend(init, [last + suf]);
      JoinAppend(init, [last]);
      assert init + [last] == ls;
      assert JoinLines([last + suf]) == last + suf;
      assert JoinLines([last]) == last;
    }
  }

  /** Merging a block between a prefix and a suffix joins to the prefix,
      the block's text and the suffix. */
  lemma {:induction false} JoinMerge(pre: string, block: Lines, suf: string)
    requires |block| >= 1
    ensures JoinLines(Merge(pre, block, suf)) == pre + JoinLines(block) + suf
  {
    var n := |block|;
    if n > 1 {
      var c := block[..n - 1] + [block[n - 1] + suf];
      JoinAppendLast(block, suf);
      JoinPrependFirst(pre, c);
      assert Merge(pre, block, suf) == [pre + c[0]] + c[1..];
    }
  }

  /** Inserting a block splices its text into the document's text at the
      insertion point. */
  lemma {:induction false} InsertSplicesText(ls: Lines, s: Position, block: Lines)
    requires ValidPos(ls, s) && |block| >= 1
    ensures JoinLines(InsertAt(ls, s, block)) == TextBefore(ls, s) + JoinLines(block) + TextFrom(ls, s)
  {
    var r, line := s.row, ls[s.row];
    var pre, suf := line[..s.column], line[s.column..];
    var m := Merge(pre, block, suf);
    JoinAround(ls[..r], m, ls[r + 1..]);
    RowsAround(ls, r);
    var before, after := RowsBefore(ls, r), RowsAfter(ls, r);
    var j := JoinLines(block);
    JoinMerge(pre, block, suf);
    Regroup(before, pre, j, suf, after);
  }

  lemma {:induction false} Regroup(a: string, b: string, c: string, d: string, e: string)
    ensures a + (b + c + d) + e == (a + b) + c + (d + e)
  {
  }

  /** The rows before and after row `r`, as `JoinAround` joins them. */
  lemma {:induction false} RowsAround(ls: Lines, r: nat)
    requires r < |ls|
    ensures RowsBefore(ls, r) == if ls[..r] == [] then "" else JoinLines(ls[..r]) + "\n"
    ensures RowsAfter(ls, r) == if ls[r + 1..] == [] then "" else "\n" + JoinLines(ls[r + 1..])
  {
    assert (ls[..r] == []) == (r == 0);
    assert (ls[r + 1..] == []) == (r == |ls| - 1);
  }

  /** Removing [s, e) cuts that slice out of the document's text. */
  lemma {:induction false} RemoveCutsText(ls: Lines, s: Position, e: Position)
    requires ValidPos(ls, s) && ValidPos(ls, e) && AtOrBefore(s, e)
    ensures JoinLines(RemoveRange(ls, s, e)) == TextBefore(ls, s) + TextFrom(ls, e)
  {
    JoinAround(ls[..s.row], [ls[s.row][..s.column] + ls[e.row][e.column..]], ls[e.row + 1..]);
  }

  /** What a removal records is exactly the text between its ends. */
  lemma {:induction false} RemovedText(ls: Lines, s: Position, e: Position)
    requires ValidPos(ls, s) && ValidPos(ls, e) && AtOrBefore(s, e)
    ensures JoinLines(ls) == TextBefore(ls, s) + JoinLines(TextInRange(ls, s, e)) + TextFrom(ls, e)
  {
    var rm := RemoveRange(ls, s, e);
    var t := TextInRange(ls, s, e);
    InsertUndoesRemove(ls, s, e);
    InsertSplicesText(rm, s, t);
    assert rm[..s.row] == ls[..s.row];
    assert rm[s.row] == ls[s.row][..s.column] + ls[e.row][e.column..];
    assert rm[s.row][..s.column] == ls[s.row][..s.column];
    assert rm[s.row][s.column..] == ls[e.row][e.column..];
    assert rm[s.row + 1..] == ls[e.row + 1..];
    assert TextBefore(rm, s) == TextBefore(ls, s);
    assert TextFrom(rm, s) == TextFrom(ls, e);
  }

  /** Row by row, the text before a row grows by that row and its "\n". */
  lemma {:induction false} RowsBeforeNext(ls: Lines, r: nat)
    requires r < |ls|
    ensures |RowsBefore(ls, r + 1)| == |RowsBefore(ls, r)| + |ls[r]| + 1
  {
    if r > 0 {
      JoinAppend(ls[..r], [ls[r]]);
      assert ls[..r + 1] == ls[..r] + [ls[r]];
    }
  }

  lemma {:induction false} RowsBeforeGrows(ls: Lines, r1: nat, r2: nat)
    requires r1 < r2 <= |ls|
    ensures |RowsBefore(ls, r1)| + |ls[r1]| < |RowsBefore(ls, r2)|
    decreases r2 - r1
  {
    RowsBeforeNext(ls, r1);
    if r1 + 1 < r2 {
      RowsBeforeGrows(ls, r1 + 1, r2);
    }
  }

  /** Offsets order positions as the positions are ordered: the offset is
      an order embedding of the document's positions into its text. */
  lemma {:induction false} OffsetOrder(ls: Lines, p1: Position, p2: Position)
    requires ValidPos(ls, p1) && ValidPos(ls, p2)
    ensures Before(p1, p2) <==> Offset(ls, p1) < Offset(ls, p2)
    ensures p1 == p2 <==> Offset(ls, p1) == Offset(ls, p2)
  {
    if p1.row < p2.row {
      RowsBeforeGrows(ls, p1.row, p2.row);
    } else if p2.row < p1.row {
      RowsBeforeGrows(ls, p2.row, p1.row);
    }
  }

  /** The anchor rule on offsets into the text: an insertion of `len`
      characters at `at` pushes offsets after it (and at it, without
      `insertRight`) by `len`; a removal of [from, to) pulls offsets after
      it back by its length and collapses the ones inside onto `from`. */
  function RemapInsertOffset(k: nat, at: nat, len: nat, insertRight: bool): (k': nat) {
    if k < at || (k == at && insertRight) then k else k + len
  }

  function RemapRemoveOffset(k: nat, from: nat, to: nat): (k': nat)
    requires from <= to
  {
    if k <= from then k else if k >= to then k - (to - from) else from
  }

  /** Anchors keep their offset relative to the text: the row/column rule
      of `RemapInsert` is the offset rule on the document's text. */
  lemma {:induction false} InsertRemapsOffset(ls: Lines, p: Position, s: Position, block: Lines, insertRight: bool)
    requires ValidPos(ls, p) && ValidPos(ls, s) && |block| >= 1
    ensures var q := RemapInsert(p, s, InsertEnd(s, block), insertRight);
            var ls' := InsertAt(ls, s, block);
            ValidPos(ls', q) &&
            Offset(ls', q) == RemapInsertOffset(Offset(ls, p), Offset(ls, s), |JoinLines(block)|, insertRight)
  {
    InsertKeepsAnchorValid(ls, p, s, block, insertRight);
    OffsetOrder(ls, p, s);
    if Before(p, s) || (p == s && insertRight) {
      InsertKeepsTextBefore(ls, p, s, block, insertRight);
    } else {
      InsertKeepsTextAfter(ls, p, s, block, insertRight);
    }
  }

  /** An anchor that stays at an insertion keeps the text before it. */
  lemma {:induction false} InsertKeepsTextBefore(ls: Lines, p: Position, s: Position, block: Lines, insertRight: bool)
    requires ValidPos(ls, p) && ValidPos(ls, s) && |block| >= 1
    requires Before(p, s) || (p == s && insertRight)
    ensures ValidPos(InsertAt(ls, s, block), p)
    ensures TextBefore(InsertAt(ls, s, block), p) == TextBefore(ls, p)
  {
    var ls' := InsertAt(ls, s, block);
    InsertKeepsAnchorText(ls, p, s, block, insertRight);
    assert ls'[..p.row] == ls[..p.row] by {
      assert ls'[..s.row] == ls[..s.row];
      assert ls'[..p.row] == ls'[..s.row][..p.row];
      assert ls[..p.row] == ls[..s.row][..p.row];
    }
  }

  /** An anchor that moves at an insertion keeps the text from it on, and
      its offset grows by the inserted length. */
  lemma {:induction false} InsertKeepsTextAfter(ls: Lines, p: Position, s: Position, block: Lines, insertRight: bool)
    requires ValidPos(ls, p) && ValidPos(ls, s) && |block| >= 1
    requires !(Before(p, s) || (p == s && insertRight))
    ensures ValidPos(InsertAt(ls, s, block), RemapInsert(p, s, InsertEnd(s, block), insertRight))
    ensures Offset(InsertAt(ls, s, block), RemapInsert(p, s, InsertEnd(s, block), insertRight)) ==
            Offset(ls, p) + |JoinLines(block)|
  {
    var q := RemapInsert(p, s, InsertEnd(s, block), insertRight);
    var ls' := InsertAt(ls, s, block);
    InsertKeepsTextFrom(ls, p, s, block, insertRight);
    TextAtPosition(ls, p);
    TextAtPosition(ls', q);
    TextAtPosition(ls, s);
    InsertSplicesText(ls, s, block);
    var whole, grown := |JoinLines(ls)|, |JoinLines(ls')|;
    var tail := |TextFrom(ls, p)|;
    assert whole == Offset(ls, p) + tail;
    assert whole == Offset(ls, s) + |TextFrom(ls, s)|;
    assert grown == Offset(ls, s) + |JoinLines(block)| + |TextFrom(ls, s)|;
    assert grown == Offset(ls', q) + tail;
  }

  lemma {:induction false} InsertKeepsTextFrom(ls: Lines, p: Position, s: Position, block: Lines, insertRight: bool)
    requires ValidPos(ls, p) && ValidPos(ls, s) && |block| >= 1
    requires !(Before(p, s) || (p == s && insertRight))
    ensures ValidPos(InsertAt(ls, s, block), RemapInsert(p, s, InsertEnd(s, block), insertRight))
    ensures TextFrom(InsertAt(ls, s, block), RemapInsert(p, s, InsertEnd(s, block), insertRight)) == TextFrom(ls, p)
  {
    var q := RemapInsert(p, s, InsertEnd(s, block), insertRight);
    var ls' := InsertAt(ls, s, block);
    var n := |block|;
    InsertKeepsAnchorText(ls, p, s, block, insertRight);
    assert q.row == p.row + n - 1;
    assert |ls'| == |ls| + n - 1;
    assert ls'[q.row + 1..] == ls[p.row + 1..] by {
      assert ls'[s.row + n..] == ls[s.row + 1..];
      if p.row > s.row {
        assert ls'[q.row + 1..] == ls'[s.row + n..][p.row - s.row..];
        assert ls[p.row + 1..] == ls[s.row + 1..][p.row - s.row..];
      }
    }
    assert RowsAfter(ls', q.row) == RowsAfter(ls, p.row);
    assert ls'[q.row][q.column..] == ls[p.row][p.column..];
  }

  /** The row/column rule of `RemapRemove` is the offset rule on the
      document's text. */
  lemma {:induction false} RemoveRemapsOffset(ls: Lines, p: Position, s: Position, e: Position)
    requires ValidPos(ls, p) && ValidPos(ls, s) && ValidPos(ls, e) && AtOrBefore(s, e)
    ensures Offset(ls, s) <= Offset(ls, e)
    ensures var q := RemapRemove(p, s, e);
            var ls' := RemoveRange(ls, s, e);
            ValidPos(ls', q) &&
            Offset(ls', q) == RemapRemoveOffset(Offset(ls, p), Offset(ls, s), Offset(ls, e))
  {
    RemoveKeepsAnchorText(ls, p, s, e);
    OffsetOrder(ls, s, e);
    OffsetOrder(ls, p, s);
    OffsetOrder(ls, p, e);
    if AtOrBefore(p, s) {
      RemoveKeepsTextBefore(ls, p, s, e);
    } else if AtOrBefore(e, p) {
      RemoveKeepsTextAfter(ls, p, s, e);
    } else {
      RemoveKeepsTextBefore(ls, s, s, e);
    }
  }

  /** An anchor at or before a removed span keeps the text before it. */
  lemma {:induction false} RemoveKeepsTextBefore(ls: Lines, p: Position, s: Position, e: Position)
    requires ValidPos(ls, p) && ValidPos(ls, s) && ValidPos(ls, e) && AtOrBefore(s, e)
    requires AtOrBefore(p, s)
    ensures ValidPos(RemoveRange(ls, s, e), p)
    ensures TextBefore(RemoveRange(ls, s, e), p) == TextBefore(ls, p)
  {
    var ls' := RemoveRange(ls, s, e);
    RemoveKeepsAnchorText(ls, p, s, e);
    assert ls'[..p.row] == ls[..p.row] by {
      assert ls'[..s.row] == ls[..s.row];
      assert ls'[..p.row] == ls'[..s.row][..p.row];
      assert ls[..p.row] == ls[..s.row][..p.row];
    }
  }

  /** An anchor at or after a removed span keeps the text from it on, and
      its offset drops by the span's length. */
  lemma {:induction false} RemoveKeepsTextAfter(ls: Lines, p: Position, s: Position, e: Position)
    requires ValidPos(ls, p) && ValidPos(ls, s) && ValidPos(ls, e) && AtOrBefore(s, e)
    requires AtOrBefore(e, p)
    ensures ValidPos(RemoveRange(ls, s, e), RemapRemove(p, s, e))
    ensures Offset(RemoveRange(ls, s, e), RemapRemove(p, s, e)) == Offset(ls, p) - (Offset(ls, e) - Offset(ls, s))
  {
    var q := RemapRemove(p, s, e);
    var ls' := RemoveRange(ls, s, e);
    RemoveKeepsTextFrom(ls, p, s, e);
    TextAtPosition(ls, p);
    TextAtPosition(ls', q);
    TextAtPosition(ls, e);
    RemoveCutsText(ls, s, e);
    var whole, cut := |JoinLines(ls)|, |JoinLines(ls')|;
    var tail := |TextFrom(ls, p)|;
    assert whole == Offset(ls, p) + tail;
    assert whole == Offset(ls, e) + |TextFrom(ls, e)|;
    assert cut == Offset(ls, s) + |TextFrom(ls, e)|;
    assert cut == Offset(ls', q) + tail;
  }

  lemma {:induction false} RemoveKeepsTextFrom(ls: Lines, p: Position, s: Position, e: Position)
    requires ValidPos(ls, p) && ValidPos(ls, s) && ValidPos(ls, e) && AtOrBefore(s, e)
    requires AtOrBefore(e, p)
    ensures ValidPos(RemoveRange(ls, s, e), RemapRemove(p, s, e))
    ensures TextFrom(RemoveRange(ls, s, e), RemapRemove(p, s, e)) == TextFrom(ls, p)
  {
    var q := RemapRemove(p, s, e);
    var ls' := RemoveRange(ls, s, e);
    RemoveKeepsAnchorText(ls, p, s, e);
    assert ls'[q.row + 1..] == ls[p.row + 1..] by {
      assert ls'[s.row + 1..] == ls[e.row + 1..];
      if p.row > e.row {
        assert ls'[q.row + 1..] == ls'[s.row + 1..][p.row - e.row..];
        assert ls[p.row + 1..] == ls[e.row + 1..][p.row - e.row..];
      }
    }
    assert q.row == |ls'| - 1 <==> p.row == |ls| - 1;
    assert RowsAfter(ls', q.row) == RowsAfter(ls, p.row);
  }

  /** A delta is an edit of the document's text: an insertion splices the
      text of its lines in at its start's offset; a removal records exactly
      the text between its start and end offsets and cuts it out. */
  lemma {:induction false} ApplyEditsText(ls: Lines, d: Delta)
    requires Applicable(ls, d)
    ensures ValidPos(ls, d.start)
    ensures d.action == Insert ==>
              JoinLines(Apply(ls, d)) == TextBefore(ls, d.start) + JoinLines(d.lines) + TextFrom(ls, d.start)
    ensures d.action == Remove ==> ValidPos(ls, d.end)
    ensures d.action == Remove ==>
              JoinLines(ls) == TextBefore(ls, d.start) + JoinLines(d.lines) + TextFrom(ls, d.end) &&
              JoinLines(Apply(ls, d)) == TextBefore(ls, d.start) + TextFrom(ls, d.end)
  {
    match d.action
    case Insert => InsertSplicesText(ls, d.start, d.lines);
    case Remove =>
      RemovedText(ls, d.start, d.end);
      RemoveCutsText(ls, d.start, d.end);
  }

  /** Every anchor keeps its place in the text across a delta: its new
      row/column is where the offset rule puts its old offset. */
  lemma {:induction false} RemapTracksOffset(ls: Lines, p: Position, d: Delta, insertRight: bool)
    requires Applicable(ls, d) && ValidPos(ls, p)
    ensures ValidPos(ls, d.start) && AtOrBefore(d.start, d.end)
    ensures ValidPos(Apply(ls, d), Remap(p, d, insertRight))
    ensures d.action == Insert ==>
              Offset(Apply(ls, d), Remap(p, d, insertRight)) ==
              RemapInsertOffset(Offset(ls, p), Offset(ls, d.start), |JoinLines(d.lines)|, insertRight)
    ensures d.action == Remove ==> ValidPos(ls, d.end) && Offset(ls, d.start) <= Offset(ls, d.end)
    ensures d.action == Remove ==>
              Offset(Apply(ls, d), Remap(p, d, insertRight)) ==
              RemapRemoveOffset(Offset(ls, p), Offset(ls, d.start), Offset(ls, d.end))
  {
    match d.action
    case Insert => InsertRemapsOffset(ls, p, d.start, d.lines, insertRight);
    case Remove => RemoveRemapsOffset(ls, p, d.start, d.end);
  }
}
