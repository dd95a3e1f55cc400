/**
 * A cursor's selection: an optional anchor (where the selection started) and
 * the ending position (where the caret is).  Text is selected when the anchor
 * is set and differs from the ending.
 */
module Selection {
  import opened Wrappers

  class TextEditorSelection {
    var anchorPositionIndex: Option<int>
    var endingPositionIndex: int

    /** A fresh selection has no anchor and ends at position 0. */
    constructor ()
      ensures anchorPositionIndex == None && endingPositionIndex == 0
    {
      anchorPositionIndex := None;
      endingPositionIndex := 0;
    }
  }

  predicate HasSelectedText(anchorPositionIndex: Option<int>, endingPositionIndex: int) {
    anchorPositionIndex.Some? && anchorPositionIndex.value != endingPositionIndex
  }

  datatype SelectionBounds = SelectionBounds(lowerBound: int, upperBound: int)

  /**
   * The anchor (0 when absent) and the ending, ordered.  The pair is the same
   * two positions, lower first.
   */
  function GetSelectionBounds(anchorPositionIndex: Option<int>, endingPositionIndex: int): (b: SelectionBounds)
    ensures b.lowerBound <= b.upperBound
    ensures var anchor := if anchorPositionIndex.Some? then anchorPositionIndex.value else 0;
            (b.lowerBound == anchor && b.upperBound == endingPositionIndex)
            || (b.lowerBound == endingPositionIndex && b.upperBound == anchor)
  {
    var lowerBound := if anchorPositionIndex.Some? then anchorPositionIndex.value else 0;
    var upperBound := endingPositionIndex;
    if lowerBound > upperBound then SelectionBounds(upperBound, lowerBound)
    else SelectionBounds(lowerBound, upperBound)
  }
}
