/** The anchor test suite, one method per test case. Each method builds the
    document and anchor the test builds, performs the same edits, and
    returns what the test observes; its postcondition is the test's
    assertion. */
module AnchorTests {
  import opened Positions
  import opened Lines
  import opened Edits
  import opened Documents

  /** The documents the tests start from, as lines. */
  lemma TwoLineText()
    ensures SplitLines("juhu\nkinners") == ["juhu", "kinners"]
  {
    var ls := ["juhu", "kinners"];
    assert ls[1..] == ["kinners"];
    assert JoinLines(ls) == "juhu" + "\n" + "kinners" == "juhu\nkinners";
    SplitJoin(ls);
  }

  lemma ThreeLineText()
    ensures SplitLines("juhu\nkinners\n123") == ["juhu", "kinners", "123"]
  {
    var ls := ["juhu", "kinners", "123"];
    assert ls[1..] == ["kinners", "123"] && ls[1..][1..] == ["123"];
    assert JoinLines(ls) == "juhu" + "\n" + ("kinners" + "\n" + "123") == "juhu\nkinners\n123";
    SplitJoin(ls);
  }

  lemma FourLineText()
    ensures SplitLines("juhu\n1\n2\nkinners") == ["juhu", "1", "2", "kinners"]
  {
    var ls := ["juhu", "1", "2", "kinners"];
    assert ls[1..] == ["1", "2", "kinners"] && ls[1..][1..] == ["2", "kinners"];
    assert ls[1..][1..][1..] == ["kinners"];
    assert JoinLines(ls) == "juhu" + "\n" + ("1" + "\n" + ("2" + "\n" + "kinners")) == "juhu\n1\n2\nkinners";
    SplitJoin(ls);
  }

  /** The text after the last test's edits. */
  lemma AppendedLinesText()
    ensures JoinLines(["a", "b", "c", ""]) == "a\nb\nc\n"
  {
    var ls := ["a", "b", "c", ""];
    assert ls[1..] == ["b", "c", ""] && ls[1..][1..] == ["c", ""] && ls[1..][1..][1..] == [""];
  }

  /** anchor_test.js:10-16 */
  method CreateAnchor() returns (p: Position, doc: Document, owner: Document)
    ensures p == Position(0, 0)
    ensures owner == doc
  {
    doc := new Document("juhu");
    var anchor := new Anchor(doc, 0, 0);
    p := anchor.GetPosition();
    owner := anchor.GetDocument();
  }

  /** anchor_test.js:18-24 */
  method InsertTextInSameRowBeforeCursor() returns (p: Position)
    ensures p == Position(1, 7)
  {
    TwoLineText();
    SplitNoBreak("123");
    var doc := new Document("juhu\nkinners");
    var anchor := new Anchor(doc, 1, 4);
    var r := doc.Insert(Position(1, 1), "123");
    assert anchor in doc.anchors;
    p := anchor.GetPosition();
  }

  /** anchor_test.js:26-33 */
  method InsertTextAtAnchorWithInsertRight() returns (p: Position)
    ensures p == Position(1, 4)
  {
    TwoLineText();
    SplitNoBreak("123");
    var doc := new Document("juhu\nkinners");
    var anchor := new Anchor(doc, 1, 4);
    anchor.insertRight := true;
    var r := doc.Insert(Position(1, 4), "123");
    assert anchor in doc.anchors;
    p := anchor.GetPosition();
  }

  /** anchor_test.js:35-41 */
  method InsertLinesBeforeCursor() returns (p: Position)
    ensures p == Position(3, 4)
  {
    TwoLineText();
    var doc := new Document("juhu\nkinners");
    var anchor := new Anchor(doc, 1, 4);
    var r := doc.InsertFullLines(1, ["123", "456"]);
    assert anchor in doc.anchors;
    p := anchor.GetPosition();
  }

  /** anchor_test.js:43-49 */
  method InsertLinesAtAnchor() returns (p: Position)
    ensures p == Position(2, 0)
  {
    TwoLineText();
    var doc := new Document("juhu\nkinners");
    var anchor := new Anchor(doc, 1, 0);
    var r := doc.InsertLines(1, ["line"]);
    assert anchor in doc.anchors;
    p := anchor.GetPosition();
  }

  /** anchor_test.js:51-58 */
  method InsertLinesAtAnchorWithInsertRight() returns (p: Position)
    ensures p == Position(1, 0)
  {
    TwoLineText();
    var doc := new Document("juhu\nkinners");
    var anchor := new Anchor(doc, 1, 0);
    anchor.insertRight := true;
    var r := doc.InsertLines(1, ["line"]);
    assert anchor in doc.anchors;
    p := anchor.GetPosition();
  }

  /** anchor_test.js:60-67 */
  method InsertLinesAtAnchorRowWithColumn() returns (p: Position)
    ensures p == Position(2, 2)
  {
    TwoLineText();
    var doc := new Document("juhu\nkinners");
    var anchor := new Anchor(doc, 1, 2);
    anchor.insertRight := true;
    var r := doc.InsertLines(1, ["line"]);
    assert anchor in doc.anchors;
    assert anchor.GetPosition() == Position(1 + 1, 2);
    p := anchor.GetPosition();
  }

  /** anchor_test.js:69-75 */
  method InsertNewLineBeforeCursor() returns (p: Position)
    ensures p == Position(2, 4)
  {
    TwoLineText();
    var doc := new Document("juhu\nkinners");
    var anchor := new Anchor(doc, 1, 4);
    var r := doc.InsertMergedLines(Position(0, 0), ["", ""]);
    assert anchor in doc.anchors;
    p := anchor.GetPosition();
  }

  /** anchor_test.js:77-83 */
  method InsertNewLineInAnchorLineBeforeAnchor() returns (p: Position)
    ensures p == Position(2, 2)
  {
    TwoLineText();
    var doc := new Document("juhu\nkinners");
    var anchor := new Anchor(doc, 1, 4);
    var r := doc.InsertMergedLines(Position(1, 2), ["", ""]);
    assert anchor in doc.anchors;
    p := anchor.GetPosition();
  }

  /** anchor_test.js:85-91 */
  method DeleteTextInAnchorLineBeforeAnchor() returns (p: Position)
    ensures p == Position(1, 2)
  {
    TwoLineText();
    var doc := new Document("juhu\nkinners");
    var anchor := new Anchor(doc, 1, 4);
    var r := doc.Remove(MakeRange(1, 1, 1, 3));
    assert anchor in doc.anchors;
    p := anchor.GetPosition();
  }

  /** anchor_test.js:93-99 */
  method RemoveRangeContainingAnchor() returns (p: Position)
    ensures p == Position(0, 1)
  {
    TwoLineText();
    var doc := new Document("juhu\nkinners");
    var anchor := new Anchor(doc, 0, 3);
    var r := doc.Remove(MakeRange(0, 1, 1, 3));
    assert anchor in doc.anchors;
    p := anchor.GetPosition();
  }

  /** anchor_test.js:101-107 */
  method DeleteCharacterAtAnchor() returns (p: Position)
    ensures p == Position(1, 4)
  {
    TwoLineText();
    var doc := new Document("juhu\nkinners");
    var anchor := new Anchor(doc, 1, 4);
    var r := doc.Remove(MakeRange(1, 4, 1, 5));
    assert anchor in doc.anchors;
    p := anchor.GetPosition();
  }

  /** anchor_test.js:109-115 */
  method DeleteLinesBeforeAnchor() returns (p: Position)
    ensures p == Position(1, 4)
  {
    FourLineText();
    var doc := new Document("juhu\n1\n2\nkinners");
    var anchor := new Anchor(doc, 3, 4);
    var r := doc.RemoveFullLines(1, 2);
    assert anchor in doc.anchors;
    p := anchor.GetPosition();
  }

  /** anchor_test.js:117-123 */
  method RemoveNewLineBeforeCursor() returns (p: Position)
    ensures p == Position(0, 8)
  {
    TwoLineText();
    var doc := new Document("juhu\nkinners");
    var anchor := new Anchor(doc, 1, 4);
    var r := doc.RemoveNewLine(0);
    assert anchor in doc.anchors;
    p := anchor.GetPosition();
  }

  /** anchor_test.js:125-131 */
  method DeleteRangeEndingInAnchorRow() returns (p: Position)
    ensures p == Position(0, 4)
  {
    TwoLineText();
    var doc := new Document("juhu\nkinners");
    var anchor := new Anchor(doc, 1, 4);
    var r := doc.Remove(MakeRange(0, 2, 1, 2));
    assert anchor in doc.anchors;
    p := anchor.GetPosition();
  }

  /** anchor_test.js:133-139 */
  method DeleteLineContainingAnchor() returns (p: Position)
    ensures p == Position(1, 0)
  {
    ThreeLineText();
    var doc := new Document("juhu\nkinners\n123");
    var anchor := new Anchor(doc, 1, 5);
    var r := doc.RemoveFullLines(1, 1);
    assert anchor in doc.anchors;
    p := anchor.GetPosition();
  }

  /** anchor_test.js:141-147 */
  method RemoveAfterAnchor() returns (p: Position)
    ensures p == Position(1, 2)
  {
    ThreeLineText();
    var doc := new Document("juhu\nkinners\n123");
    var anchor := new Anchor(doc, 1, 2);
    var r := doc.Remove(MakeRange(1, 4, 2, 2));
    assert anchor in doc.anchors;
    p := anchor.GetPosition();
  }

  /** anchor_test.js:149-159: the change event fires, and at that point the
      anchor is at (0, 0). */
  method ChangeEventOnMove() returns (p: Position, events: nat)
    ensures events == 1 && p == Position(0, 0)
  {
    ThreeLineText();
    var doc := new Document("juhu\nkinners\n123");
    var anchor := new Anchor(doc, 1, 5);
    var r := doc.Remove(MakeRange(0, 0, 2, 1));
    assert anchor in doc.anchors;
    p := anchor.GetPosition();
    events := anchor.changeEvents;
  }

  /** anchor_test.js:161-170: no change event when the position stays. */
  method NoChangeEventWithoutMove() returns (events: nat)
    ensures events == 0
  {
    ThreeLineText();
    var doc := new Document("juhu\nkinners\n123");
    var anchor := new Anchor(doc, 1, 5);
    var r := doc.Remove(MakeRange(2, 0, 2, 1));
    assert anchor in doc.anchors;
    events := anchor.changeEvents;
  }

  /** The start of anchor_test.js:172-181: an anchor requested at (2, 4)
      on a three-line document is clipped to the end of the last line. */
  method AnchorPastLastLine() returns (doc: Document, anchor: Anchor)
    ensures fresh(doc) && fresh(anchor)
    ensures doc.Valid() && doc.anchors == [anchor] && doc.lines == ["juhu", "kinners", "123"]
    ensures anchor.GetPosition() == Position(2, 3) && !anchor.insertRight
  {
    ThreeLineText();
    doc := new Document("juhu\nkinners\n123");
    anchor := new Anchor(doc, 2, 4);
  }

  /** anchor_test.js:172-181 */
  method InsertRemoveLinesAtEnd() returns (afterRemove: Position, afterInsert: Position, value: string)
    ensures afterRemove == Position(0, 0)
    ensures afterInsert == Position(3, 0)
    ensures value == "a\nb\nc\n"
  {
    var doc, anchor := AnchorPastLastLine();
    FullLinesRemoveMovesAnchor(doc.lines, 0, 2, anchor.GetPosition(), false);
    var r1 := doc.RemoveFullLines(0, 3);
    assert anchor in doc.anchors;
    assert doc.lines == [""];
    assert anchor.GetPosition() == Position(0, 0);
    afterRemove := anchor.GetPosition();
    FullLinesInsertMovesAnchor([""], 0, ["a", "b", "c"], Position(0, 0), false);
    assert [""][..0] + ["a", "b", "c"] + [""][0..] == ["a", "b", "c", ""];
    var r2 := doc.InsertFullLines(0, ["a", "b", "c"]);
    assert anchor in doc.anchors;
    assert doc.lines == ["a", "b", "c", ""];
    assert anchor.GetPosition() == Position(3, 0);
    afterInsert := anchor.GetPosition();
    value := doc.GetValue();
    AppendedLinesText();
  }
}
