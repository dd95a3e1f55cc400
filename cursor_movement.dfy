/**
 * What one keyboard event does to a cursor: the caret's row and column, the
 * preferred column kept for vertical moves, and the selection's anchor and
 * ending.  Both cursor classes move by these rules; they differ only in
 * whether collapsing a selection to the right may leave the caret one row
 * past the last (clampUpperRow false) or is pulled back onto the last row
 * (clampUpperRow true).
 */
module CursorMovement {
  import opened Wrappers
  import opened TextBuffer
  import opened Keyboard
  import opened Selection

  /** Everything MoveCursor reads and writes, as one value. */
  datatype CursorState = CursorState(
    rowIndex: int,
    columnIndex: int,
    preferredColumnIndex: int,
    anchorPositionIndex: Option<int>,
    endingPositionIndex: int)

  /** A caret's (row, column) pair. */
  datatype RowColumn = RowColumn(rowIndex: int, columnIndex: int)

  datatype Placement = Placement(rowIndex: int, columnIndex: int, preferredColumnIndex: int)

  /** The rows of the index start at non-negative positions: the least the movement rules need. */
  predicate RowsNonNegative(rows: seq<RowEnding>) {
    forall i :: 0 <= i < |rows| ==> 0 <= rows[i].positionIndex
  }

  /** Length of a row without its line ending, clipped to a preferred column. */
  function ColumnOnRow(rows: seq<RowEnding>, rowIndex: int, preferredColumnIndex: int): int
    requires 0 <= rowIndex < |rows|
  {
    var lengthOfRow := GetLengthOfRow(rows, rowIndex, false);
    if lengthOfRow < preferredColumnIndex then lengthOfRow else preferredColumnIndex
  }

  /**
   * Whether the key reads the row-ending entry of the caret's own row:
   * ArrowRight and End without Ctrl take that row's length, and Ctrl+ArrowLeft
   * away from column 0 scans it.  A collapse reads only the selection, and the
   * other keys read at most a neighbouring row.
   */
  predicate ReadsCaretRow(e: KeyboardEvent, s: CursorState, hadSelection: bool) {
    var collapse := hadSelection && !e.shiftKey;
    match e.key
    case ArrowLeft => !collapse && s.columnIndex != 0 && e.ctrlKey
    case ArrowRight => !collapse
    case End => !e.ctrlKey
    case _ => false
  }

  /**
   * The rows the key can start from: a row of the index, or one past the last
   * for a key that does not read the caret's row (the source indexes past the
   * row list, and throws, exactly when a key that does read it starts there).
   */
  predicate CaretRowDefined(e: KeyboardEvent, s: CursorState, rows: seq<RowEnding>, hadSelection: bool) {
    0 <= s.rowIndex < |rows| || (s.rowIndex == |rows| && !ReadsCaretRow(e, s, hadSelection))
  }

  /**
   * ArrowLeft: a collapse (no Shift while text is selected) moves to the
   * selection's lower bound and keeps the preferred column; otherwise the
   * caret wraps to the end of the previous row at column 0, jumps back over
   * a run of one character kind with Ctrl, or steps back one column, and the
   * preferred column follows it.
   */
  function LeftPlacement(e: KeyboardEvent, s: CursorState, content: seq<RichCharacter>, rows: seq<RowEnding>,
                         hadSelection: bool): (p: Placement)
    requires |rows| > 0 && RowsNonNegative(rows)
    requires e.key.ArrowLeft? && CaretRowDefined(e, s, rows, hadSelection)
    ensures 0 <= p.rowIndex <= |rows|
    ensures s.rowIndex < |rows| && !(hadSelection && !e.shiftKey) ==> p.rowIndex < |rows|
  {
    var row := s.rowIndex;
    var col := s.columnIndex;
    if hadSelection && !e.shiftKey then
      var lowerBound := GetSelectionBounds(s.anchorPositionIndex, s.endingPositionIndex).lowerBound;
      var lowerRow := RowOfPosition(rows, lowerBound);
      Placement(lowerRow.rowIndex, lowerBound - lowerRow.rowStartPositionIndex, s.preferredColumnIndex)
    else if col == 0 then
      if row != 0 then
        var lengthOfRow := GetLengthOfRow(rows, row - 1, false);
        Placement(row - 1, lengthOfRow, lengthOfRow)
      else Placement(row, col, s.preferredColumnIndex)
    else if e.ctrlKey then
      var differing := ColumnOfDifferingKind(content, rows, row, col, true);
      var target := if differing == -1 then 0 else differing;
      Placement(row, target, target)
    else Placement(row, col - 1, col - 1)
  }

  /**
   * ArrowRight: a collapse moves to the selection's upper bound and keeps the
   * preferred column (with the clamp, a bound past the last row becomes the
   * end of the last row's text); otherwise the caret wraps to column 0 of the
   * next row at the end of a row, jumps over a run of one character kind with
   * Ctrl, or steps one column, and the preferred column follows it.  At the
   * end of the last row it stays.
   */
  function RightPlacement(e: KeyboardEvent, s: CursorState, content: seq<RichCharacter>, rows: seq<RowEnding>,
                          hadSelection: bool, clampUpperRow: bool): (p: Placement)
    requires |rows| > 0 && RowsNonNegative(rows)
    requires e.key.ArrowRight? && CaretRowDefined(e, s, rows, hadSelection)
    ensures 0 <= p.rowIndex <= |rows|
    ensures !(hadSelection && !e.shiftKey) ==> p.rowIndex < |rows|
  {
    var row := s.rowIndex;
    var col := s.columnIndex;
    if hadSelection && !e.shiftKey then
      var upperBound := GetSelectionBounds(s.anchorPositionIndex, s.endingPositionIndex).upperBound;
      var upperRow := RowOfPosition(rows, upperBound);
      if clampUpperRow && upperRow.rowIndex >= |rows| then
        Placement(|rows| - 1, GetLengthOfRow(rows, |rows| - 1, false), s.preferredColumnIndex)
      else
        Placement(upperRow.rowIndex, upperBound - upperRow.rowStartPositionIndex, s.preferredColumnIndex)
    else
      var lengthOfRow := GetLengthOfRow(rows, row, false);
      if col == lengthOfRow && row < |rows| - 1 then Placement(row + 1, 0, 0)
      else if col != lengthOfRow then
        if e.ctrlKey then
          var differing := ColumnOfDifferingKind(content, rows, row, col, false);
          var target := if differing == -1 then lengthOfRow else differing;
          Placement(row, target, target)
        else Placement(row, col + 1, col + 1)
      else Placement(row, col, s.preferredColumnIndex)
  }

  /**
   * The caret after the key, given whether text was selected before it.
   * Vertical moves keep the preferred column and clip it to the target row;
   * Home and End go to the start or the end of the row's text (of the first
   * or last row with Ctrl) and set the preferred column; other keys leave the
   * caret where it is.
   */
  function MovedPlacement(e: KeyboardEvent, s: CursorState, content: seq<RichCharacter>, rows: seq<RowEnding>,
                          hadSelection: bool, clampUpperRow: bool): (p: Placement)
    requires |rows| > 0 && RowsNonNegative(rows)
    requires CaretRowDefined(e, s, rows, hadSelection)
    ensures 0 <= p.rowIndex <= |rows|
    ensures s.rowIndex < |rows| && !(hadSelection && !e.shiftKey && (e.key.ArrowLeft? || e.key.ArrowRight?)) ==>
              p.rowIndex < |rows|
  {
    var row := s.rowIndex;
    var stay := Placement(row, s.columnIndex, s.preferredColumnIndex);
    match e.key
    case ArrowLeft => LeftPlacement(e, s, content, rows, hadSelection)
    case ArrowDown =>
      if row < |rows| - 1 then Placement(row + 1, ColumnOnRow(rows, row + 1, s.preferredColumnIndex), s.preferredColumnIndex)
      else stay
    case ArrowUp =>
      if row > 0 then Placement(row - 1, ColumnOnRow(rows, row - 1, s.preferredColumnIndex), s.preferredColumnIndex)
      else stay
    case ArrowRight => RightPlacement(e, s, content, rows, hadSelection, clampUpperRow)
    case Home =>
      Placement(if e.ctrlKey then 0 else row, 0, 0)
    case End =>
      var targetRow := if e.ctrlKey then |rows| - 1 else row;
      var lengthOfRow := GetLengthOfRow(rows, targetRow, false);
      Placement(targetRow, lengthOfRow, lengthOfRow)
    case _ => stay
  }

  /**
   * The cursor after MoveCursor handles one keyboard event.
   *
   * Selection: without Shift the anchor is dropped and the ending kept; with
   * Shift a missing or empty selection is anchored at the caret's position
   * before the move, an existing one keeps its anchor, and the ending follows
   * the caret to its new position.
   */
  function NextCursorState(e: KeyboardEvent, s: CursorState, content: seq<RichCharacter>, rows: seq<RowEnding>,
                           clampUpperRow: bool): (r: CursorState)
    requires |rows| > 0 && RowsNonNegative(rows)
    requires CaretRowDefined(e, s, rows, HasSelectedText(s.anchorPositionIndex, s.endingPositionIndex))
    ensures 0 <= r.rowIndex <= |rows|
    ensures !e.shiftKey ==> r.anchorPositionIndex == None && r.endingPositionIndex == s.endingPositionIndex
    ensures e.shiftKey && !HasSelectedText(s.anchorPositionIndex, s.endingPositionIndex) ==>
              r.anchorPositionIndex == Some(GetPositionIndex(rows, s.rowIndex, s.columnIndex))
    ensures e.shiftKey && HasSelectedText(s.anchorPositionIndex, s.endingPositionIndex) ==>
              r.anchorPositionIndex == s.anchorPositionIndex
    ensures e.shiftKey ==> r.endingPositionIndex == GetPositionIndex(rows, r.rowIndex, r.columnIndex)
  {
    var hadSelection := HasSelectedText(s.anchorPositionIndex, s.endingPositionIndex);
    var anchor :=
      if !e.shiftKey then None
      else if s.anchorPositionIndex.None? || s.endingPositionIndex == s.anchorPositionIndex.value
      then Some(GetPositionIndex(rows, s.rowIndex, s.columnIndex))
      else s.anchorPositionIndex;
    var p := MovedPlacement(e, s, content, rows, hadSelection, clampUpperRow);
    var ending := if e.shiftKey then GetPositionIndex(rows, p.rowIndex, p.columnIndex) else s.endingPositionIndex;
    CursorState(p.rowIndex, p.columnIndex, p.preferredColumnIndex, anchor, ending)
  }

  /** The ArrowLeft case of MoveCursor, on local coordinates. */
  method MoveLeft(keyboardEventArgs: KeyboardEvent, s: CursorState, content: seq<RichCharacter>, rows: seq<RowEnding>)
    returns (placement: Placement)
    requires |rows| > 0 && RowsNonNegative(rows)
    requires keyboardEventArgs.key.ArrowLeft?
    requires CaretRowDefined(keyboardEventArgs, s, rows, HasSelectedText(s.anchorPositionIndex, s.endingPositionIndex))
    ensures placement == LeftPlacement(keyboardEventArgs, s, content, rows,
                                       HasSelectedText(s.anchorPositionIndex, s.endingPositionIndex))
  {
    var rowIndex := s.rowIndex;
    var columnIndex := s.columnIndex;
    var localPreferredColumnIndex := s.preferredColumnIndex;
    if HasSelectedText(s.anchorPositionIndex, s.endingPositionIndex) && !keyboardEventArgs.shiftKey {
      var lowerBound := if s.anchorPositionIndex.Some? then s.anchorPositionIndex.value else 0;
      var upperBound := s.endingPositionIndex;
      if lowerBound > upperBound {
        lowerBound, upperBound := upperBound, lowerBound;
      }
      assert lowerBound == GetSelectionBounds(s.anchorPositionIndex, s.endingPositionIndex).lowerBound;
      var lowerRowMetaData := FindRowIndexRowStartRowEndingTupleFromPositionIndex(rows, lowerBound);
      rowIndex := lowerRowMetaData.rowIndex;
      columnIndex := lowerBound - lowerRowMetaData.rowStartPositionIndex;
    } else if columnIndex == 0 {
      if rowIndex != 0 {
        rowIndex := rowIndex - 1;
        var lengthOfRow := GetLengthOfRow(rows, rowIndex, false);
        columnIndex, localPreferredColumnIndex := lengthOfRow, lengthOfRow;
      }
    } else if keyboardEventArgs.ctrlKey {
      var differing := GetColumnIndexOfCharacterWithDifferingKind(content, rows, rowIndex, columnIndex, true);
      if differing == -1 {
        columnIndex, localPreferredColumnIndex := 0, 0;
      } else {
        columnIndex, localPreferredColumnIndex := differing, differing;
      }
    } else {
      columnIndex, localPreferredColumnIndex := columnIndex - 1, columnIndex - 1;
    }
    placement := Placement(rowIndex, columnIndex, localPreferredColumnIndex);
  }

  /** The ArrowRight case of MoveCursor, on local coordinates, with or without the upper-row clamp. */
  method MoveRight(keyboardEventArgs: KeyboardEvent, s: CursorState, content: seq<RichCharacter>, rows: seq<RowEnding>,
                   clampUpperRow: bool)
    returns (placement: Placement)
    requires |rows| > 0 && RowsNonNegative(rows)
    requires keyboardEventArgs.key.ArrowRight?
    requires CaretRowDefined(keyboardEventArgs, s, rows, HasSelectedText(s.anchorPositionIndex, s.endingPositionIndex))
    ensures placement == RightPlacement(keyboardEventArgs, s, content, rows,
                                        HasSelectedText(s.anchorPositionIndex, s.endingPositionIndex), clampUpperRow)
  {
    var rowIndex := s.rowIndex;
    var columnIndex := s.columnIndex;
    var localPreferredColumnIndex := s.preferredColumnIndex;
    if HasSelectedText(s.anchorPositionIndex, s.endingPositionIndex) && !keyboardEventArgs.shiftKey {
      var lowerBound := if s.anchorPositionIndex.Some? then s.anchorPositionIndex.value else 0;
      var upperBound := s.endingPositionIndex;
      if lowerBound > upperBound {
        lowerBound, upperBound := upperBound, lowerBound;
      }
      assert upperBound == GetSelectionBounds(s.anchorPositionIndex, s.endingPositionIndex).upperBound;
      var upperRowMetaData := FindRowIndexRowStartRowEndingTupleFromPositionIndex(rows, upperBound);
      rowIndex := upperRowMetaData.rowIndex;
      if clampUpperRow && rowIndex >= |rows| {
        rowIndex := |rows| - 1;
        columnIndex := GetLengthOfRow(rows, rowIndex, false);
      } else {
        columnIndex := upperBound - upperRowMetaData.rowStartPositionIndex;
      }
    } else {
      var lengthOfRow := GetLengthOfRow(rows, rowIndex, false);
      if columnIndex == lengthOfRow && rowIndex < |rows| - 1 {
        columnIndex, localPreferredColumnIndex := 0, 0;
        rowIndex := rowIndex + 1;
      } else if columnIndex != lengthOfRow {
        if keyboardEventArgs.ctrlKey {
          var differing := GetColumnIndexOfCharacterWithDifferingKind(content, rows, rowIndex, columnIndex, false);
          if differing == -1 {
            columnIndex, localPreferredColumnIndex := lengthOfRow, lengthOfRow;
          } else {
            columnIndex, localPreferredColumnIndex := differing, differing;
          }
        } else {
          columnIndex, localPreferredColumnIndex := columnIndex + 1, columnIndex + 1;
        }
      }
    }
    placement := Placement(rowIndex, columnIndex, localPreferredColumnIndex);
  }

  /**
   * The caret part of MoveCursor, step by step: the coordinates and the
   * preferred column after the key, from the cursor as it was before the
   * anchor was touched.
   */
  method MoveCaret(keyboardEventArgs: KeyboardEvent, s: CursorState, content: seq<RichCharacter>, rows: seq<RowEnding>,
                   clampUpperRow: bool)
    returns (placement: Placement)
    requires |rows| > 0 && RowsNonNegative(rows)
    requires CaretRowDefined(keyboardEventArgs, s, rows, HasSelectedText(s.anchorPositionIndex, s.endingPositionIndex))
    ensures placement == MovedPlacement(keyboardEventArgs, s, content, rows,
                                        HasSelectedText(s.anchorPositionIndex, s.endingPositionIndex), clampUpperRow)
  {
    var rowIndex := s.rowIndex;
    var columnIndex := s.columnIndex;
    var localPreferredColumnIndex := s.preferredColumnIndex;
    match keyboardEventArgs.key {
      case ArrowLeft =>
        placement := MoveLeft(keyboardEventArgs, s, content, rows);
        return;
      case ArrowDown =>
        if rowIndex < |rows| - 1 {
          rowIndex := rowIndex + 1;
          var lengthOfRow := GetLengthOfRow(rows, rowIndex, false);
          columnIndex := if lengthOfRow < localPreferredColumnIndex then lengthOfRow else localPreferredColumnIndex;
        }
      case ArrowUp =>
        if rowIndex > 0 {
          rowIndex := rowIndex - 1;
          var lengthOfRow := GetLengthOfRow(rows, rowIndex, false);
          columnIndex := if lengthOfRow < localPreferredColumnIndex then lengthOfRow else localPreferredColumnIndex;
        }
      case ArrowRight =>
        placement := MoveRight(keyboardEventArgs, s, content, rows, clampUpperRow);
        return;
      case Home =>
        if keyboardEventArgs.ctrlKey {
          rowIndex := 0;
        }
        columnIndex, localPreferredColumnIndex := 0, 0;
      case End =>
        if keyboardEventArgs.ctrlKey {
          rowIndex := |rows| - 1;
        }
        var lengthOfRow := GetLengthOfRow(rows, rowIndex, false);
        columnIndex, localPreferredColumnIndex := lengthOfRow, lengthOfRow;
      case _ =>
    }
    placement := Placement(rowIndex, columnIndex, localPreferredColumnIndex);
  }

  function PlainKey(key: Key): KeyboardEvent {
    KeyboardEvent(key, NoCode, false, false)
  }

  // ---------------------------------------------------------------------------
  // Properties of the movement rules

  /**
   * Collapsing a selection to the left puts the caret on the selection's lower
   * bound and drops the selection; inside a valid index that position lies on
   * a row of the document, within the row's length with its line ending.
   */
  lemma CollapseLeftLandsOnLowerBound(e: KeyboardEvent, s: CursorState, content: seq<RichCharacter>, rows: seq<RowEnding>,
                                      clampUpperRow: bool)
    requires RowPositionsValid(|content|, rows)
    requires 0 <= s.rowIndex < |rows|
    requires e.key == ArrowLeft && !e.shiftKey
    requires HasSelectedText(s.anchorPositionIndex, s.endingPositionIndex)
    ensures var r := NextCursorState(e, s, content, rows, clampUpperRow);
            var b := GetSelectionBounds(s.anchorPositionIndex, s.endingPositionIndex);
            && r.rowIndex <= |rows|
            && GetPositionIndex(rows, r.rowIndex, r.columnIndex) == b.lowerBound
            && r.anchorPositionIndex == None
            && r.preferredColumnIndex == s.preferredColumnIndex
            && (0 <= b.lowerBound && b.upperBound <= |content| ==>
                  r.rowIndex < |rows| && 0 <= r.columnIndex < GetLengthOfRow(rows, r.rowIndex, true))
  {
    var b := GetSelectionBounds(s.anchorPositionIndex, s.endingPositionIndex);
    if 0 <= b.lowerBound && b.upperBound <= |content| {
      PositionOfContentFallsInARow(|content|, rows, b.lowerBound);
    }
  }

  /**
   * Collapsing a selection to the right puts the caret on the selection's
   * upper bound, whichever rule applies, as long as the document ends with
   * the end-of-file marker (which has no characters): the clamp moves the
   * caret from one row past the last to the end of the last row, which is
   * the same position.
   */
  lemma CollapseRightLandsOnUpperBound(e: KeyboardEvent, s: CursorState, content: seq<RichCharacter>, rows: seq<RowEnding>,
                                       clampUpperRow: bool)
    requires RowPositionsValid(|content|, rows)
    requires rows[|rows| - 1].rowEndingKind == EndOfFile
    requires 0 <= s.rowIndex < |rows|
    requires e.key == ArrowRight && !e.shiftKey
    requires HasSelectedText(s.anchorPositionIndex, s.endingPositionIndex)
    requires GetSelectionBounds(s.anchorPositionIndex, s.endingPositionIndex).upperBound <= |content|
    ensures var r := NextCursorState(e, s, content, rows, clampUpperRow);
            && r.rowIndex <= |rows|
            && GetPositionIndex(rows, r.rowIndex, r.columnIndex)
               == GetSelectionBounds(s.anchorPositionIndex, s.endingPositionIndex).upperBound
            && r.anchorPositionIndex == None
  {
    var upperBound := GetSelectionBounds(s.anchorPositionIndex, s.endingPositionIndex).upperBound;
    var upperRow := RowOfPosition(rows, upperBound);
    if clampUpperRow && upperRow.rowIndex >= |rows| {
      RowLengthBounds(|content|, rows, |rows| - 1);
      assert rows[|rows| - 1].positionIndex <= upperBound;
    }
  }

  /** Both ends of the selection are positions of the content (or its end). */
  predicate SelectionInContent(s: CursorState, contentLength: int) {
    && (s.anchorPositionIndex.Some? ==> 0 <= s.anchorPositionIndex.value <= contentLength)
    && 0 <= s.endingPositionIndex <= contentLength
  }

  /**
   * With the clamp, a caret on a row of the document stays on a row of the
   * document whatever the key, as long as the selection lies in the content.
   */
  lemma ClampedMoveStaysOnARow(e: KeyboardEvent, s: CursorState, content: seq<RichCharacter>, rows: seq<RowEnding>)
    requires RowPositionsValid(|content|, rows)
    requires 0 <= s.rowIndex < |rows|
    requires SelectionInContent(s, |content|)
    ensures 0 <= NextCursorState(e, s, content, rows, true).rowIndex < |rows|
  {
    if HasSelectedText(s.anchorPositionIndex, s.endingPositionIndex) && !e.shiftKey && e.key.ArrowLeft? {
      var b := GetSelectionBounds(s.anchorPositionIndex, s.endingPositionIndex);
      PositionOfContentFallsInARow(|content|, rows, b.lowerBound);
    }
  }

  /**
   * Without the clamp, collapsing a selection that ends at the end of the
   * document to the right leaves the caret one row past the last: with
   * content "ab" (one row, closed by the end-of-file marker at 2) and the
   * selection 0..2, ArrowRight puts the caret on row 1 of a one-row document.
   */
  lemma UnclampedCollapseLeavesTheDocument()
    ensures var content := [RichCharacter('a', 0), RichCharacter('b', 0)];
            var rows := [RowEnding(2, EndOfFile)];
            var s := CursorState(0, 0, 0, Some(0), 2);
            RowPositionsValid(|content|, rows)
            && SelectionInContent(s, |content|)
            && NextCursorState(PlainKey(ArrowRight), s, content, rows, false).rowIndex == |rows|
  {
    var rows := [RowEnding(2, EndOfFile)];
    assert RowHoldsItsLineEnding(rows, 0);
    assert LastEndingAtOrBefore(rows, 2, 1) == 0;
  }

  /**
   * Right then Left, without modifiers and with nothing selected, brings the
   * caret back, also across the end of a row; only the very end of the
   * document, where Right does not move, is excluded.
   */
  lemma {:induction false} RightThenLeftReturns(s: CursorState, content: seq<RichCharacter>, rows: seq<RowEnding>,
                                                clampUpperRow: bool)
    requires RowPositionsValid(|content|, rows)
    requires 0 <= s.rowIndex < |rows|
    requires 0 <= s.columnIndex <= GetLengthOfRow(rows, s.rowIndex, false)
    requires !(s.rowIndex == |rows| - 1 && s.columnIndex == GetLengthOfRow(rows, s.rowIndex, false))
    requires !HasSelectedText(s.anchorPositionIndex, s.endingPositionIndex)
    ensures var moved := NextCursorState(PlainKey(ArrowRight), s, content, rows, clampUpperRow);
            0 <= moved.rowIndex < |rows|
            && var back := NextCursorState(PlainKey(ArrowLeft), moved, content, rows, clampUpperRow);
            back.rowIndex == s.rowIndex && back.columnIndex == s.columnIndex
  {
    var moved := NextCursorState(PlainKey(ArrowRight), s, content, rows, clampUpperRow);
    assert moved.anchorPositionIndex == None;
    if s.columnIndex == GetLengthOfRow(rows, s.rowIndex, false) {
      assert moved.rowIndex == s.rowIndex + 1 && moved.columnIndex == 0;
    } else {
      assert moved.rowIndex == s.rowIndex && moved.columnIndex == s.columnIndex + 1;
    }
  }

  /**
   * A caret one row past the last (where the unclamped collapse to the right
   * can leave it) is not stuck: ArrowUp brings it back onto the last row,
   * Ctrl+Home and Ctrl+End onto the first and the last row, while ArrowDown
   * and Home keep it where it is.
   */
  lemma KeysFromPastTheLastRow(e: KeyboardEvent, s: CursorState, content: seq<RichCharacter>, rows: seq<RowEnding>,
                               clampUpperRow: bool)
    requires |rows| > 0 && RowsNonNegative(rows)
    requires s.rowIndex == |rows|
    ensures e.key.ArrowUp? ==> NextCursorState(e, s, content, rows, clampUpperRow).rowIndex == |rows| - 1
    ensures e.key.ArrowDown? ==> NextCursorState(e, s, content, rows, clampUpperRow).rowIndex == |rows|
    ensures e.key.Home? ==> NextCursorState(e, s, content, rows, clampUpperRow).rowIndex == (if e.ctrlKey then 0 else |rows|)
    ensures e.key.End? && e.ctrlKey ==>
              NextCursorState(e, s, content, rows, clampUpperRow).rowIndex == |rows| - 1
  {
  }

  /**
   * ArrowUp and ArrowDown move one row when there is a row in that direction,
   * put the caret on the preferred column clipped to the new row's text, and
   * leave the preferred column as it was; at the first row (Up) or the last
   * row (Down) the caret does not move.  Modifiers make no difference, and
   * the selection follows the Shift rules of NextCursorState.
   */
  lemma VerticalMoveClipsToPreferredColumn(e: KeyboardEvent, s: CursorState, content: seq<RichCharacter>,
                                           rows: seq<RowEnding>, clampUpperRow: bool)
    requires |rows| > 0 && RowsNonNegative(rows)
    requires 0 <= s.rowIndex <= |rows|
    requires e.key.ArrowUp? || e.key.ArrowDown?
    ensures var r := NextCursorState(e, s, content, rows, clampUpperRow);
            var target := if e.key.ArrowUp? then s.rowIndex - 1 else s.rowIndex + 1;
            && r.preferredColumnIndex == s.preferredColumnIndex
            && (0 <= target < |rows| && (e.key.ArrowUp? || s.rowIndex < |rows| - 1) ==>
                  r.rowIndex == target
                  && r.columnIndex == Min(s.preferredColumnIndex, GetLengthOfRow(rows, target, false)))
            && ((e.key.ArrowUp? && s.rowIndex == 0) || (e.key.ArrowDown? && s.rowIndex >= |rows| - 1) ==>
                  r.rowIndex == s.rowIndex && r.columnIndex == s.columnIndex)
  {
  }

  /**
   * Down then Up, without modifiers, brings the caret back to its row and
   * keeps the preferred column; the caret lands on the preferred column
   * clipped to each row, so a caret sitting on its preferred column comes
   * back to it even when the row below is shorter.
   */
  lemma {:induction false} DownThenUpReturns(s: CursorState, content: seq<RichCharacter>, rows: seq<RowEnding>,
                                             clampUpperRow: bool)
    requires |rows| > 0 && RowsNonNegative(rows)
    requires 0 <= s.rowIndex < |rows| - 1
    requires s.columnIndex == s.preferredColumnIndex
    requires s.preferredColumnIndex <= GetLengthOfRow(rows, s.rowIndex, false)
    ensures var moved := NextCursorState(PlainKey(ArrowDown), s, content, rows, clampUpperRow);
            moved.rowIndex == s.rowIndex + 1
            && moved.columnIndex == Min(s.preferredColumnIndex, GetLengthOfRow(rows, s.rowIndex + 1, false))
            && var back := NextCursorState(PlainKey(ArrowUp), moved, content, rows, clampUpperRow);
            back.rowIndex == s.rowIndex && back.columnIndex == s.columnIndex
            && back.preferredColumnIndex == s.preferredColumnIndex
  {
    var moved := NextCursorState(PlainKey(ArrowDown), s, content, rows, clampUpperRow);
    assert moved.rowIndex == s.rowIndex + 1;
    assert moved.preferredColumnIndex == s.preferredColumnIndex;
  }

  /**
   * The preferred column is what lets the caret cross a shorter row: two
   * ArrowDown presses from a caret on its preferred column pass through a row
   * shorter than that column (where the caret is clipped to the row's end)
   * and land on the preferred column again on a row long enough for it.
   */
  lemma {:induction false} DownAcrossShorterRowRestoresColumn(s: CursorState, content: seq<RichCharacter>,
                                                              rows: seq<RowEnding>, clampUpperRow: bool)
    requires |rows| > 0 && RowsNonNegative(rows)
    requires 0 <= s.rowIndex < |rows| - 2
    requires s.columnIndex == s.preferredColumnIndex
    requires GetLengthOfRow(rows, s.rowIndex + 1, false) < s.preferredColumnIndex
    requires s.preferredColumnIndex <= GetLengthOfRow(rows, s.rowIndex + 2, false)
    ensures var once := NextCursorState(PlainKey(ArrowDown), s, content, rows, clampUpperRow);
            once.rowIndex == s.rowIndex + 1
            && once.columnIndex == GetLengthOfRow(rows, s.rowIndex + 1, false) < s.columnIndex
            && var twice := NextCursorState(PlainKey(ArrowDown), once, content, rows, clampUpperRow);
            twice.rowIndex == s.rowIndex + 2 && twice.columnIndex == s.columnIndex
  {
    var once := NextCursorState(PlainKey(ArrowDown), s, content, rows, clampUpperRow);
    assert once.rowIndex == s.rowIndex + 1 && once.preferredColumnIndex == s.preferredColumnIndex;
  }

  /**
   * Home puts the caret at column 0 and End at the end of the row's text
   * (before its line ending); with Ctrl they go to the first and the last row.
   * Both set the preferred column to the new column.
   */
  lemma HomeAndEndTargets(s: CursorState, content: seq<RichCharacter>, rows: seq<RowEnding>, ctrlKey: bool, clampUpperRow: bool)
    requires RowPositionsValid(|content|, rows)
    requires 0 <= s.rowIndex < |rows|
    ensures var home := NextCursorState(KeyboardEvent(Home, NoCode, false, ctrlKey), s, content, rows, clampUpperRow);
            home.rowIndex == (if ctrlKey then 0 else s.rowIndex)
            && home.columnIndex == 0 == home.preferredColumnIndex
            && GetPositionIndex(rows, home.rowIndex, 0) == GetStartOfRowTuple(rows, home.rowIndex).positionIndex
    ensures var end := NextCursorState(KeyboardEvent(End, NoCode, false, ctrlKey), s, content, rows, clampUpperRow);
            end.rowIndex == (if ctrlKey then |rows| - 1 else s.rowIndex)
            && end.columnIndex == end.preferredColumnIndex
            && GetPositionIndex(rows, end.rowIndex, end.columnIndex)
               == rows[end.rowIndex].positionIndex - |AsCharacters(rows[end.rowIndex].rowEndingKind)|
  {
  }

  /**
   * Ctrl+Right inside a row stops at the first character whose kind differs
   * from the character under the caret, and every character it skips has the
   * kind of that character; when the kind never changes it stops at the end
   * of the row's text.
   */
  lemma CtrlRightSkipsOneRun(s: CursorState, content: seq<RichCharacter>, rows: seq<RowEnding>, clampUpperRow: bool)
    requires RowPositionsValid(|content|, rows)
    requires 0 <= s.rowIndex < |rows|
    requires 0 <= s.columnIndex < GetLengthOfRow(rows, s.rowIndex, false)
    requires !HasSelectedText(s.anchorPositionIndex, s.endingPositionIndex)
    ensures var r := NextCursorState(KeyboardEvent(ArrowRight, NoCode, false, true), s, content, rows, clampUpperRow);
            var start := GetStartOfRowTuple(rows, s.rowIndex).positionIndex;
            var kind := GetCharacterKind(content[start + s.columnIndex].value);
            && r.rowIndex == s.rowIndex
            && s.columnIndex < r.columnIndex <= GetLengthOfRow(rows, s.rowIndex, true)
            && r.preferredColumnIndex == r.columnIndex
            && (forall k :: start + s.columnIndex <= k < start + r.columnIndex && k < |content| ==>
                  GetCharacterKind(content[k].value) == kind)
            && (r.columnIndex == GetLengthOfRow(rows, s.rowIndex, false)
                || (start + r.columnIndex < |content| && GetCharacterKind(content[start + r.columnIndex].value) != kind))
  {
    RowLengthBounds(|content|, rows, s.rowIndex);
    var e := KeyboardEvent(ArrowRight, NoCode, false, true);
    var differing := ColumnOfDifferingKind(content, rows, s.rowIndex, s.columnIndex, false);
    var p := RightPlacement(e, s, content, rows, false, clampUpperRow);
    assert p.rowIndex == s.rowIndex;
    assert p.columnIndex == p.preferredColumnIndex == if differing == -1 then GetLengthOfRow(rows, s.rowIndex, false) else differing;
  }

  /**
   * When the index describes the content (each row ends with the characters
   * of its line ending, which are whitespace), Ctrl+Right from inside a row's
   * text never stops inside the line ending.
   */
  lemma CtrlRightStaysInRowText(s: CursorState, content: seq<RichCharacter>, rows: seq<RowEnding>, clampUpperRow: bool)
    requires RowIndexValid(content, rows)
    requires 0 <= s.rowIndex < |rows|
    requires 0 <= s.columnIndex < GetLengthOfRow(rows, s.rowIndex, false)
    requires !HasSelectedText(s.anchorPositionIndex, s.endingPositionIndex)
    ensures var r := NextCursorState(KeyboardEvent(ArrowRight, NoCode, false, true), s, content, rows, clampUpperRow);
            r.rowIndex == s.rowIndex && r.columnIndex <= GetLengthOfRow(rows, s.rowIndex, false)
  {
    ForwardScanStopsBeforeLineEnding(content, rows, s.rowIndex, s.columnIndex);
  }

  /** The forward kind scan from inside a row's text never stops inside the row's line ending. */
  lemma ForwardScanStopsBeforeLineEnding(content: seq<RichCharacter>, rows: seq<RowEnding>, rowIndex: int, columnIndex: int)
    requires RowIndexValid(content, rows)
    requires 0 <= rowIndex < |rows|
    requires 0 <= columnIndex < GetLengthOfRow(rows, rowIndex, false)
    ensures ColumnOfDifferingKind(content, rows, rowIndex, columnIndex, false) <= GetLengthOfRow(rows, rowIndex, false)
  {
    RowLengthBounds(|content|, rows, rowIndex);
    var start := GetStartOfRowTuple(rows, rowIndex).positionIndex;
    var lengthOfRow := GetLengthOfRow(rows, rowIndex, false);
    var differing := ColumnOfDifferingKind(content, rows, rowIndex, columnIndex, false);
    if differing > lengthOfRow {
      LineEndingIsWhitespace(content, rows, rowIndex, start + lengthOfRow);
      LineEndingIsWhitespace(content, rows, rowIndex, start + differing);
    }
  }

  /**
   * Ctrl+Left inside a row stops just after the last character, before the
   * caret, whose kind differs from the character before the caret, and every
   * character it skips has that kind; when the kind never changes it stops at
   * column 0 (the scan's -1).
   */
  lemma CtrlLeftSkipsOneRun(s: CursorState, content: seq<RichCharacter>, rows: seq<RowEnding>, clampUpperRow: bool)
    requires RowPositionsValid(|content|, rows)
    requires 0 <= s.rowIndex < |rows|
    requires 0 < s.columnIndex <= GetLengthOfRow(rows, s.rowIndex, false)
    requires !HasSelectedText(s.anchorPositionIndex, s.endingPositionIndex)
    ensures var r := NextCursorState(KeyboardEvent(ArrowLeft, NoCode, false, true), s, content, rows, clampUpperRow);
            var start := GetStartOfRowTuple(rows, s.rowIndex).positionIndex;
            var kind := GetCharacterKind(content[start + s.columnIndex - 1].value);
            && r.rowIndex == s.rowIndex
            && 0 <= r.columnIndex < s.columnIndex
            && r.preferredColumnIndex == r.columnIndex
            && (forall k :: start + r.columnIndex <= k < start + s.columnIndex ==> GetCharacterKind(content[k].value) == kind)
            && (r.columnIndex == 0 || GetCharacterKind(content[start + r.columnIndex - 1].value) != kind)
  {
    RowLengthBounds(|content|, rows, s.rowIndex);
  }

  /**
   * ArrowLeft with nothing to collapse: at column 0 the caret wraps to the
   * end of the previous row's text, and at the start of the document it does
   * not move; elsewhere, without Ctrl, it steps back one column.  Whenever the
   * caret moves, the preferred column becomes its new column.
   */
  lemma LeftStepRules(e: KeyboardEvent, s: CursorState, content: seq<RichCharacter>, rows: seq<RowEnding>,
                      clampUpperRow: bool)
    requires |rows| > 0 && RowsNonNegative(rows)
    requires e.key.ArrowLeft? && CaretRowDefined(e, s, rows, HasSelectedText(s.anchorPositionIndex, s.endingPositionIndex))
    requires !(HasSelectedText(s.anchorPositionIndex, s.endingPositionIndex) && !e.shiftKey)
    ensures var r := NextCursorState(e, s, content, rows, clampUpperRow);
            && (s.rowIndex == 0 && s.columnIndex == 0 ==>
                  r.rowIndex == 0 && r.columnIndex == 0 && r.preferredColumnIndex == s.preferredColumnIndex)
            && (s.rowIndex > 0 && s.columnIndex == 0 ==>
                  r.rowIndex == s.rowIndex - 1 && r.columnIndex == GetLengthOfRow(rows, s.rowIndex - 1, false))
            && (s.columnIndex != 0 && !e.ctrlKey ==> r.rowIndex == s.rowIndex && r.columnIndex == s.columnIndex - 1)
            && (!(s.rowIndex == 0 && s.columnIndex == 0) ==> r.preferredColumnIndex == r.columnIndex)
  {
  }

  /**
   * ArrowRight with nothing to collapse: at the end of a row's text the caret
   * wraps to column 0 of the next row, and at the end of the last row it does
   * not move; elsewhere, without Ctrl, it steps forward one column.  Whenever
   * the caret moves, the preferred column becomes its new column.
   */
  lemma RightStepRules(e: KeyboardEvent, s: CursorState, content: seq<RichCharacter>, rows: seq<RowEnding>,
                       clampUpperRow: bool)
    requires |rows| > 0 && RowsNonNegative(rows)
    requires 0 <= s.rowIndex < |rows|
    requires e.key.ArrowRight? && !(HasSelectedText(s.anchorPositionIndex, s.endingPositionIndex) && !e.shiftKey)
    ensures var r := NextCursorState(e, s, content, rows, clampUpperRow);
            var lengthOfRow := GetLengthOfRow(rows, s.rowIndex, false);
            && (s.columnIndex == lengthOfRow && s.rowIndex < |rows| - 1 ==>
                  r.rowIndex == s.rowIndex + 1 && r.columnIndex == 0)
            && (s.columnIndex == lengthOfRow && s.rowIndex == |rows| - 1 ==>
                  r.rowIndex == s.rowIndex && r.columnIndex == s.columnIndex
                  && r.preferredColumnIndex == s.preferredColumnIndex)
            && (s.columnIndex != lengthOfRow && !e.ctrlKey ==>
                  r.rowIndex == s.rowIndex && r.columnIndex == s.columnIndex + 1)
            && (!(s.columnIndex == lengthOfRow && s.rowIndex == |rows| - 1) ==> r.preferredColumnIndex == r.columnIndex)
  {
  }
}
