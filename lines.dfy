/** The document's line storage as a value: a non-empty sequence of lines
    with the "\n" terminators stripped, and the splices that insert and
    remove text in it. */
module Lines {
  import opened Positions

  type Lines = seq<string>

  /** `p` addresses a character boundary of `ls`: an existing row, and a
      column at most that row's length. */
  predicate ValidPos(ls: Lines, p: Position) {
    p.row < |ls| && p.column <= |ls[p.row]|
  }

  /** Splitting text on "\n" (String.split): one more line than there are
      terminators, never empty. */
  function SplitLines(s: string): (r: Lines)
    ensures |r| >= 1
    ensures forall i :: 0 <= i < |r| ==> '\n' !in r[i]
    decreases |s|
  {
    if |s| == 0 then [""]
    else if s[0] == '\n' then [""] + SplitLines(s[1..])
    else
      var rest := SplitLines(s[1..]);
      [[s[0]] + rest[0]] + rest[1..]
  }

  /** Joining lines with "\n" (getValue). */
  function JoinLines(ls: Lines): (s: string)
    requires |ls| >= 1
    decreases |ls|
  {
    if |ls| == 1 then ls[0] else ls[0] + "\n" + JoinLines(ls[1..])
  }

  /** Joining what was split gives back the text. */
  lemma {:induction false} JoinSplit(s: string)
    ensures JoinLines(SplitLines(s)) == s
    decreases |s|
  {
    if |s| == 0 {
    } else if s[0] == '\n' {
      JoinSplit(s[1..]);
      assert SplitLines(s) == [""] + SplitLines(s[1..]);
      assert ([""] + SplitLines(s[1..]))[1..] == SplitLines(s[1..]);
      assert s == [s[0]] + s[1..];
    } else {
      JoinSplit(s[1..]);
      var rest := SplitLines(s[1..]);
      assert SplitLines(s) == [[s[0]] + rest[0]] + rest[1..];
      JoinPrependFirst([s[0]], rest);
      assert s == [s[0]] + s[1..];
    }
  }

  /** Prepending text to the first line prepends it to the joined text. */
  lemma {:induction false} JoinPrependFirst(pre: string, ls: Lines)
    requires |ls| >= 1
    ensures JoinLines([pre + ls[0]] + ls[1..]) == pre + JoinLines(ls)
  {
    var ls' := [pre + ls[0]] + ls[1..];
    assert ls'[0] == pre + ls[0];
    if |ls| == 1 {
      assert ls' == [pre + ls[0]];
    } else {
      assert ls'[1..] == ls[1..];
      var rest := JoinLines(ls[1..]);
      assert JoinLines(ls') == (pre + ls[0]) + "\n" + rest;
      assert JoinLines(ls) == ls[0] + "\n" + rest;
    }
  }

  /** Splitting what was joined gives back the lines, when no line holds a
      terminator. */
  lemma {:induction false} SplitJoin(ls: Lines)
    requires |ls| >= 1
    requires forall i :: 0 <= i < |ls| ==> '\n' !in ls[i]
    ensures SplitLines(JoinLines(ls)) == ls
    decreases |ls|
  {
    if |ls| == 1 {
      SplitNoBreak(ls[0]);
    } else {
      SplitJoin(ls[1..]);
      SplitPrefix(ls[0], JoinLines(ls[1..]));
      assert [ls[0]] + ls[1..] == ls;
    }
  }

  /** Text without a terminator is one line. */
  lemma {:induction false} SplitNoBreak(s: string)
    requires '\n' !in s
    ensures SplitLines(s) == [s]
    decreases |s|
  {
    if |s| > 0 {
      assert s[0] in s;
      assert forall c :: c in s[1..] ==> c in s;
      SplitNoBreak(s[1..]);
      assert s == [s[0]] + s[1..];
    }
  }

  /** A terminator-free head followed by "\n" becomes its own first line. */
  lemma {:induction false} SplitPrefix(head: string, tail: string)
    requires '\n' !in head
    ensures SplitLines(head + "\n" + tail) == [head] + SplitLines(tail)
    decreases |head|
  {
    var s := head + "\n" + tail;
    if |head| == 0 {
      assert s == "\n" + tail;
      assert s[1..] == tail;
    } else {
      assert head[0] in head;
      assert forall c :: c in head[1..] ==> c in head;
      SplitPrefix(head[1..], tail);
      assert s[0] == head[0];
      assert s[1..] == head[1..] + "\n" + tail;
      var rest := SplitLines(s[1..]);
      assert rest == [head[1..]] + SplitLines(tail);
      assert [head[0]] + head[1..] == head;
    }
  }

  /** Joining a concatenation of two non-empty runs of lines. */
  lemma {:induction false} JoinAppend(a: Lines, b: Lines)
    requires |a| >= 1 && |b| >= 1
    ensures JoinLines(a + b) == JoinLines(a) + "\n" + JoinLines(b)
    decreases |a|
  {
    if |a| == 1 {
      assert (a + b)[1..] == b;
    } else {
      JoinAppend(a[1..], b);
      assert (a + b)[1..] == a[1..] + b;
    }
  }

  /** The lines `block` spliced between `prefix` and `suffix`: the first
      line joins the prefix and the last line joins the suffix, so a
      one-line block lands inside a single line. */
  function Merge(prefix: string, block: Lines, suffix: string): (r: Lines)
    requires |block| >= 1
    ensures |r| == |block|
  {
    if |block| == 1 then [prefix + block[0] + suffix]
    else [prefix + block[0]] + block[1..|block| - 1] + [block[|block| - 1] + suffix]
  }

  /** Where an inserted block ends: on the row of its last line, after that
      line (and after the text before the insertion point, for a one-line
      block). */
  function InsertEnd(start: Position, block: Lines): (e: Position)
    requires |block| >= 1
    ensures AtOrBefore(start, e)
    ensures e.row == start.row + |block| - 1
  {
    Position(start.row + |block| - 1,
             (if |block| == 1 then start.column else 0) + |block[|block| - 1]|)
  }

  /** The lines of `ls` with `block` merged in at `start`. */
  function InsertAt(ls: Lines, start: Position, block: Lines): (r: Lines)
    requires ValidPos(ls, start) && |block| >= 1
    ensures |r| == |ls| + |block| - 1
    ensures r[..start.row] == ls[..start.row]
    ensures r[start.row + |block|..] == ls[start.row + 1..]
  {
    var line := ls[start.row];
    ls[..start.row] + Merge(line[..start.column], block, line[start.column..]) + ls[start.row + 1..]
  }

  /** The text between two positions, as lines (getLinesForRange). */
  function TextInRange(ls: Lines, start: Position, end: Position): (r: Lines)
    requires ValidPos(ls, start) && ValidPos(ls, end) && AtOrBefore(start, end)
    ensures |r| == end.row - start.row + 1
  {
    if start.row == end.row then [ls[start.row][start.column..end.column]]
    else [ls[start.row][start.column..]] + ls[start.row + 1..end.row] + [ls[end.row][..end.column]]
  }

  /** The lines of `ls` with [start, end) cut out: the partial first and
      last rows are joined into one. */
  function RemoveRange(ls: Lines, start: Position, end: Position): (r: Lines)
    requires ValidPos(ls, start) && ValidPos(ls, end) && AtOrBefore(start, end)
    ensures |r| == |ls| - (end.row - start.row)
    ensures r[..start.row] == ls[..start.row]
    ensures r[start.row + 1..] == ls[end.row + 1..]
  {
    ls[..start.row] + [ls[start.row][..start.column] + ls[end.row][end.column..]] + ls[end.row + 1..]
  }

  /** Inserting a block and then removing the span it occupies restores
      the lines; the span holds exactly the block. */
  lemma RemoveUndoesInsert(ls: Lines, start: Position, block: Lines)
    requires ValidPos(ls, start) && |block| >= 1
    ensures ValidPos(InsertAt(ls, start, block), InsertEnd(start, block))
    ensures TextInRange(InsertAt(ls, start, block), start, InsertEnd(start, block)) == block
    ensures RemoveRange(InsertAt(ls, start, block), start, InsertEnd(start, block)) == ls
  {
    var r, c, n := start.row, start.column, |block|;
    var line := ls[r];
    var pre, suf := line[..c], line[c..];
    var ls' := InsertAt(ls, start, block);
    var e := InsertEnd(start, block);
    assert pre + suf == line;
    if n == 1 {
      assert ls'[r] == pre + block[0] + suf;
      assert ls'[r][c..e.column] == block[0];
      assert ls'[r][..c] + ls'[r][e.column..] == line;
      assert RemoveRange(ls', start, e) == ls[..r] + [line] + ls[r + 1..];
    } else {
      var m := Merge(pre, block, suf);
      assert ls'[r] == pre + block[0];
      assert ls'[e.row] == block[n - 1] + suf;
      assert ls'[r + 1..e.row] == block[1..n - 1] by {
        assert ls'[r + 1..e.row] == m[1..n - 1];
      }
      assert ls'[r][c..] == block[0];
      assert ls'[e.row][..e.column] == block[n - 1];
      assert block == [block[0]] + block[1..n - 1] + [block[n - 1]];
      assert ls'[r][..c] + ls'[e.row][e.column..] == line;
      assert ls'[e.row + 1..] == ls[r + 1..];
      assert RemoveRange(ls', start, e) == ls[..r] + [line] + ls[r + 1..];
    }
    assert ls == ls[..r] + [line] + ls[r + 1..];
  }

  /** Removing a span and inserting its text back at its start restores
      the lines, and the text ends where the span ended. */
  lemma InsertUndoesRemove(ls: Lines, start: Position, end: Position)
    requires ValidPos(ls, start) && ValidPos(ls, end) && AtOrBefore(start, end)
    ensures ValidPos(RemoveRange(ls, start, end), start)
    ensures InsertEnd(start, TextInRange(ls, start, end)) == end
    ensures InsertAt(RemoveRange(ls, start, end), start, TextInRange(ls, start, end)) == ls
  {
    var t := TextInRange(ls, start, end);
    var rm := RemoveRange(ls, start, end);
    var r, c := start.row, start.column;
    var a, b := ls[r], ls[end.row];
    assert rm[r] == a[..c] + b[end.column..];
    assert rm[r][..c] == a[..c];
    assert rm[r][c..] == b[end.column..];
    if r == end.row {
      assert a[..c] + a[c..end.column] + a[end.column..] == a;
      assert InsertAt(rm, start, t) == ls[..r] + [a] + ls[r + 1..];
    } else {
      var n := |t|;
      assert t[n - 1] == b[..end.column];
      assert t[1..n - 1] == ls[r + 1..end.row];
      assert a[..c] + a[c..] == a;
      assert b[..end.column] + b[end.column..] == b;
      assert Merge(a[..c], t, b[end.column..]) == [a] + ls[r + 1..end.row] + [b];
      assert InsertAt(rm, start, t) == ls[..r] + ([a] + ls[r + 1..end.row] + [b]) + ls[end.row + 1..];
    }
  }
}
