/**
 * The cursor of the Cursor namespace: the same caret, preferred column and
 * selection, marked primary or not.  MoveCursor pulls a caret that a
 * collapse to the right would put past the last row back onto the end of
 * the last row's text.
 */
module Cursor {
  import opened Wrappers
  import opened TextBuffer
  import opened Keyboard
  import opened Selection
  import opened CursorMovement
  import opened Editor

  class TextEditorCursor {
    var indexCoordinates: RowColumn
    var preferredColumnIndex: int
    var shouldRevealCursor: bool
    const textEditorSelection: TextEditorSelection
    const isPrimaryCursor: bool

    /** A cursor at (0, 0) with a fresh, empty selection. */
    constructor (isPrimaryCursor: bool)
      ensures this.isPrimaryCursor == isPrimaryCursor
      ensures indexCoordinates == RowColumn(0, 0) && preferredColumnIndex == 0 && !shouldRevealCursor
      ensures fresh(textEditorSelection)
      ensures textEditorSelection.anchorPositionIndex == None && textEditorSelection.endingPositionIndex == 0
    {
      this.isPrimaryCursor := isPrimaryCursor;
      indexCoordinates := RowColumn(0, 0);
      preferredColumnIndex := 0;
      shouldRevealCursor := false;
      textEditorSelection := new TextEditorSelection();
    }

    /** A cursor at the given coordinates, preferring its own column. */
    constructor FromCoordinates(rowAndColumnIndex: RowColumn, isPrimaryCursor: bool)
      ensures this.isPrimaryCursor == isPrimaryCursor
      ensures indexCoordinates == rowAndColumnIndex && !shouldRevealCursor
      ensures preferredColumnIndex == rowAndColumnIndex.columnIndex
      ensures fresh(textEditorSelection)
      ensures textEditorSelection.anchorPositionIndex == None && textEditorSelection.endingPositionIndex == 0
    {
      this.isPrimaryCursor := isPrimaryCursor;
      indexCoordinates := rowAndColumnIndex;
      preferredColumnIndex := rowAndColumnIndex.columnIndex;
      shouldRevealCursor := false;
      textEditorSelection := new TextEditorSelection();
    }

    /** The cursor's coordinates, preferred column and selection as one value. */
    function State(): CursorState
      reads this, textEditorSelection
    {
      CursorState(indexCoordinates.rowIndex, indexCoordinates.columnIndex, preferredColumnIndex,
                  textEditorSelection.anchorPositionIndex, textEditorSelection.endingPositionIndex)
    }

    /** The caret is on a row of the buffer and the selection lies in its content. */
    ghost predicate InDocument(textEditorBase: TextEditorBase)
      reads this, textEditorSelection, textEditorBase
    {
      && RowPositionsValid(|textEditorBase.content|, textEditorBase.rowEndingPositions)
      && 0 <= indexCoordinates.rowIndex < |textEditorBase.rowEndingPositions|
      && SelectionInContent(State(), |textEditorBase.content|)
    }

    /**
     * Moves the cursor for one keyboard event on the given buffer, with the
     * upper-row clamp: the caret stays on a row of the buffer.
     */
    static method MoveCursor(keyboardEventArgs: KeyboardEvent, textEditorCursor: TextEditorCursor, textEditorBase: TextEditorBase)
      requires |textEditorBase.rowEndingPositions| > 0 && RowsNonNegative(textEditorBase.rowEndingPositions)
      requires CaretRowDefined(keyboardEventArgs, textEditorCursor.State(), textEditorBase.rowEndingPositions,
                               HasSelectedText(textEditorCursor.textEditorSelection.anchorPositionIndex,
                                               textEditorCursor.textEditorSelection.endingPositionIndex))
      modifies textEditorCursor`indexCoordinates, textEditorCursor`preferredColumnIndex, textEditorCursor.textEditorSelection
      ensures textEditorCursor.State()
              == NextCursorState(keyboardEventArgs, old(textEditorCursor.State()),
                                 textEditorBase.content, textEditorBase.rowEndingPositions, true)
      ensures old(textEditorCursor.InDocument(textEditorBase)) ==>
                0 <= textEditorCursor.indexCoordinates.rowIndex < |textEditorBase.rowEndingPositions|
    {
      var before := textEditorCursor.State();
      var rows := textEditorBase.rowEndingPositions;
      var selection := textEditorCursor.textEditorSelection;
      var rowIndex := textEditorCursor.indexCoordinates.rowIndex;
      var columnIndex := textEditorCursor.indexCoordinates.columnIndex;

      if keyboardEventArgs.shiftKey {
        if selection.anchorPositionIndex.None? || selection.endingPositionIndex == selection.anchorPositionIndex.value {
          selection.anchorPositionIndex := Some(GetPositionIndex(rows, rowIndex, columnIndex));
        }
      } else {
        selection.anchorPositionIndex := None;
      }

      var placement := MoveCaret(keyboardEventArgs, before, textEditorBase.content, rows, true);

      textEditorCursor.indexCoordinates := RowColumn(placement.rowIndex, placement.columnIndex);
      textEditorCursor.preferredColumnIndex := placement.preferredColumnIndex;

      if keyboardEventArgs.shiftKey {
        selection.endingPositionIndex := GetPositionIndex(rows, placement.rowIndex, placement.columnIndex);
      }

      if RowPositionsValid(|textEditorBase.content|, rows) && before.rowIndex < |rows|
         && SelectionInContent(before, |textEditorBase.content|) {
        ClampedMoveStaysOnARow(keyboardEventArgs, before, textEditorBase.content, rows);
      }
    }
  }
}
