/**
 * The cursor of the TextEditor namespace: a caret, the column it prefers on
 * vertical moves, and a selection.  MoveCursor collapses a selection to the
 * right without pulling the caret back onto the last row.
 */
module EditorCursor {
  import opened Wrappers
  import opened TextBuffer
  import opened Keyboard
  import opened Selection
  import opened CursorMovement
  import opened Editor

  class TextEditorCursor {
    var indexCoordinates: RowColumn
    var preferredColumnIndex: int
    var shouldRevealCursor: bool
    const textEditorSelection: TextEditorSelection

    /** A cursor at (0, 0) with a fresh, empty selection. */
    constructor ()
      ensures indexCoordinates == RowColumn(0, 0) && preferredColumnIndex == 0 && !shouldRevealCursor
      ensures fresh(textEditorSelection)
      ensures textEditorSelection.anchorPositionIndex == None && textEditorSelection.endingPositionIndex == 0
    {
      indexCoordinates := RowColumn(0, 0);
      preferredColumnIndex := 0;
      shouldRevealCursor := false;
      textEditorSelection := new TextEditorSelection();
    }

    /** A cursor at the given coordinates; the preferred column is left at 0. */
    constructor FromCoordinates(rowAndColumnIndex: RowColumn)
      ensures indexCoordinates == rowAndColumnIndex && preferredColumnIndex == 0 && !shouldRevealCursor
      ensures fresh(textEditorSelection)
      ensures textEditorSelection.anchorPositionIndex == None && textEditorSelection.endingPositionIndex == 0
    {
      indexCoordinates := rowAndColumnIndex;
      preferredColumnIndex := 0;
      shouldRevealCursor := false;
      textEditorSelection := new TextEditorSelection();
    }

    /** The cursor's coordinates, preferred column and selection as one value. */
    function State(): CursorState
      reads this, textEditorSelection
    {
      CursorState(indexCoordinates.rowIndex, indexCoordinates.columnIndex, preferredColumnIndex,
                  textEditorSelection.anchorPositionIndex, textEditorSelection.endingPositionIndex)
    }

    /**
     * Moves the cursor for one keyboard event on the given buffer, without
     * the upper-row clamp.
     */
    static method MoveCursor(keyboardEventArgs: KeyboardEvent, textEditorCursor: TextEditorCursor, textEditorBase: TextEditorBase)
      requires |textEditorBase.rowEndingPositions| > 0 && RowsNonNegative(textEditorBase.rowEndingPositions)
      requires CaretRowDefined(keyboardEventArgs, textEditorCursor.State(), textEditorBase.rowEndingPositions,
                               HasSelectedText(textEditorCursor.textEditorSelection.anchorPositionIndex,
                                               textEditorCursor.textEditorSelection.endingPositionIndex))
      modifies textEditorCursor`indexCoordinates, textEditorCursor`preferredColumnIndex, textEditorCursor.textEditorSelection
      ensures textEditorCursor.State()
              == NextCursorState(keyboardEventArgs, old(textEditorCursor.State()),
                                 textEditorBase.content, textEditorBase.rowEndingPositions, false)
    {
      var before := textEditorCursor.State();
      var rows := textEditorBase.rowEndingPositions;
      var selection := textEditorCursor.textEditorSelection;
      var rowIndex := textEditorCursor.indexCoordinates.rowIndex;
      var columnIndex := textEditorCursor.indexCoordinates.columnIndex;

      if keyboardEventArgs.shiftKey {
        if selection.anchorPositionIndex.None? || selection.endingPositionIndex == selection.anchorPositionIndex.value {
          selection.anchorPositionIndex := Some(GetPositionIndex(rows, rowIndex, columnIndex));
        }
      } else {
        selection.anchorPositionIndex := None;
      }

      var placement := MoveCaret(keyboardEventArgs, before, textEditorBase.content, rows, false);

      textEditorCursor.indexCoordinates := RowColumn(placement.rowIndex, placement.columnIndex);
      textEditorCursor.preferredColumnIndex := placement.preferredColumnIndex;

      if keyboardEventArgs.shiftKey {
        selection.endingPositionIndex := GetPositionIndex(rows, placement.rowIndex, placement.columnIndex);
      }
    }

    /**
     * The selected text of the buffer: None when nothing is selected or the
     * selected range holds no characters; a selection inside the content
     * yields exactly the characters between its bounds.
     */
    function GetSelectedText(textEditorBase: TextEditorBase): (text: Option<string>)
      reads this, textEditorSelection, textEditorBase
      ensures var anchor := textEditorSelection.anchorPositionIndex;
              var ending := textEditorSelection.endingPositionIndex;
              var b := GetSelectionBounds(anchor, ending);
              && (!HasSelectedText(anchor, ending) ==> text == None)
              && (text.Some? ==> |text.value| > 0)
              && (HasSelectedText(anchor, ending) && 0 <= b.lowerBound && b.upperBound <= |textEditorBase.content| ==>
                    text == Some(GetAllText(textEditorBase.content)[b.lowerBound..b.upperBound]))
              && (|textEditorBase.content| <= b.lowerBound ==> text == None)
    {
      var anchor := textEditorSelection.anchorPositionIndex;
      var ending := textEditorSelection.endingPositionIndex;
      if anchor.Some? && anchor.value != ending then
        var lowerBound := if anchor.value > ending then ending else anchor.value;
        var upperBound := if anchor.value > ending then anchor.value else ending;
        var result := GetTextRange(textEditorBase.content, lowerBound, upperBound - lowerBound);
        if |result| != 0 then Some(result) else None
      else None
    }
  }
}
