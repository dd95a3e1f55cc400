/**
 * Read-only queries of the text buffer (TextEditorBase): the buffer is a flat
 * list of rich characters plus a list of row endings, one entry per row, each
 * giving the exclusive end offset of its row (line-ending characters included)
 * and the kind of line ending that closes it.
 *
 * The queries read only those two lists (and the tab positions), so they are
 * stated here over the lists themselves.
 */
module TextBuffer {

  datatype RowEndingKind = CarriageReturn | Linefeed | CarriageReturnLinefeed | StartOfFile | EndOfFile

  /** The characters a row ending stands for in the content. */
  function AsCharacters(kind: RowEndingKind): string {
    match kind
    case CarriageReturn => "\r"
    case Linefeed => "\n"
    case CarriageReturnLinefeed => "\r\n"
    case StartOfFile => ""
    case EndOfFile => ""
  }

  datatype RowEnding = RowEnding(positionIndex: int, rowEndingKind: RowEndingKind)

  datatype RichCharacter = RichCharacter(value: char, decorationByte: int)

  /** A span of content produced by a lexer, with the decoration it paints. */
  datatype TextEditorTextSpan = TextEditorTextSpan(startingIndexInclusive: int, endingIndexExclusive: int, decorationByte: int)

  datatype CharacterKind = LetterOrDigit | Whitespace | Punctuation

  const PunctuationCharacters: string := "!\"#$%&'()*+,-./:;<=>?@[\\]^`{|}~"

  /** Total classification used by Ctrl word-skip: every character has exactly one kind. */
  function GetCharacterKind(c: char): CharacterKind {
    if c == ' ' || c == '\t' || c == '\r' || c == '\n' then Whitespace
    else if c in PunctuationCharacters then Punctuation
    else LetterOrDigit
  }

  function Min(a: int, b: int): int { if a < b then a else b }

  function Max(a: int, b: int): int { if a < b then b else a }

  // ---------------------------------------------------------------------------
  // Row index

  /**
   * The positions of a row index fit a content of the given length: they stay
   * inside it and never decrease, the last entry closes it, and every row is at
   * least as long as its own line ending.
   */
  ghost predicate RowPositionsValid(contentLength: int, rows: seq<RowEnding>) {
    && |rows| > 0
    && (forall i :: 0 <= i < |rows| ==> 0 <= rows[i].positionIndex <= contentLength)
    && (forall i, j :: 0 <= i < j < |rows| ==> rows[i].positionIndex <= rows[j].positionIndex)
    && rows[|rows| - 1].positionIndex == contentLength
    && (forall i :: 0 <= i < |rows| ==> RowHoldsItsLineEnding(rows, i))
  }

  /** Row i is at least as long as the characters of the line ending that closes it. */
  ghost predicate RowHoldsItsLineEnding(rows: seq<RowEnding>, i: int)
    requires 0 <= i < |rows|
  {
    GetStartOfRowTuple(rows, i).positionIndex + |AsCharacters(rows[i].rowEndingKind)| <= rows[i].positionIndex
  }

  /** The row index describes the content: valid positions, and every row ends with the characters of its line ending. */
  ghost predicate RowIndexValid(content: seq<RichCharacter>, rows: seq<RowEnding>) {
    && RowPositionsValid(|content|, rows)
    && (forall i :: 0 <= i < |rows| ==> RowEndsWithItsLineEnding(content, rows, i))
  }

  /** The last characters of row i are those of its line ending. */
  ghost predicate RowEndsWithItsLineEnding(content: seq<RichCharacter>, rows: seq<RowEnding>, i: int)
    requires RowPositionsValid(|content|, rows)
    requires 0 <= i < |rows|
  {
    var ending := AsCharacters(rows[i].rowEndingKind);
    assert RowHoldsItsLineEnding(rows, i);
    GetAllText(content)[rows[i].positionIndex - |ending|..rows[i].positionIndex] == ending
  }

  /** In an index that describes the content, the characters of a row's line ending are whitespace. */
  lemma LineEndingIsWhitespace(content: seq<RichCharacter>, rows: seq<RowEnding>, rowIndex: int, k: int)
    requires RowIndexValid(content, rows)
    requires 0 <= rowIndex < |rows|
    requires rows[rowIndex].positionIndex - |AsCharacters(rows[rowIndex].rowEndingKind)| <= k < rows[rowIndex].positionIndex
    ensures 0 <= k < |content| && GetCharacterKind(content[k].value) == Whitespace
  {
    assert RowEndsWithItsLineEnding(content, rows, rowIndex);
    assert RowHoldsItsLineEnding(rows, rowIndex);
    assert rows[rowIndex].positionIndex <= rows[|rows| - 1].positionIndex;
    var ending := AsCharacters(rows[rowIndex].rowEndingKind);
    var endingStart := rows[rowIndex].positionIndex - |ending|;
    assert GetAllText(content)[endingStart..rows[rowIndex].positionIndex][k - endingStart] == ending[k - endingStart];
  }

  /** Row 0 starts at offset 0; row r > 0 starts where entry r - 1 ends. */
  function GetStartOfRowTuple(rows: seq<RowEnding>, rowIndex: int): (start: RowEnding)
    requires rowIndex <= |rows|
    ensures rowIndex <= 0 ==> start == RowEnding(0, StartOfFile)
    ensures 0 < rowIndex ==> start == rows[rowIndex - 1]
  {
    if rowIndex > 0 then rows[rowIndex - 1] else RowEnding(0, StartOfFile)
  }

  /** Length of a row, without its line-ending characters unless asked for. */
  function GetLengthOfRow(rows: seq<RowEnding>, rowIndex: int, includeLineEndingCharacters: bool): (length: int)
    requires |rows| == 0 || 0 <= rowIndex < |rows|
    ensures |rows| == 0 ==> length == 0
    ensures |rows| > 0 ==>
              GetStartOfRowTuple(rows, rowIndex).positionIndex + length
              + (if includeLineEndingCharacters then 0 else |AsCharacters(rows[rowIndex].rowEndingKind)|)
              == rows[rowIndex].positionIndex
  {
    if |rows| == 0 then 0
    else
      var lengthOfRowWithLineEndings := rows[rowIndex].positionIndex - GetStartOfRowTuple(rows, rowIndex).positionIndex;
      if includeLineEndingCharacters then lengthOfRowWithLineEndings
      else lengthOfRowWithLineEndings - |AsCharacters(rows[rowIndex].rowEndingKind)|
  }

  /** Both lengths of a row of a valid index, and how they differ. */
  lemma RowLengthBounds(contentLength: int, rows: seq<RowEnding>, rowIndex: int)
    requires RowPositionsValid(contentLength, rows)
    requires 0 <= rowIndex < |rows|
    ensures 0 <= GetLengthOfRow(rows, rowIndex, false) <= GetLengthOfRow(rows, rowIndex, true)
    ensures GetLengthOfRow(rows, rowIndex, true) - GetLengthOfRow(rows, rowIndex, false)
            == |AsCharacters(rows[rowIndex].rowEndingKind)|
    ensures 0 <= GetStartOfRowTuple(rows, rowIndex).positionIndex
    ensures GetStartOfRowTuple(rows, rowIndex).positionIndex + GetLengthOfRow(rows, rowIndex, true) <= contentLength
  {
    assert RowHoldsItsLineEnding(rows, rowIndex);
    assert rows[rowIndex].positionIndex <= rows[|rows| - 1].positionIndex;
  }

  /** Rows follow one another: each row starts where the previous one ends, line ending included. */
  lemma RowsAreContiguous(rows: seq<RowEnding>, rowIndex: int)
    requires 0 < rowIndex < |rows|
    ensures GetStartOfRowTuple(rows, rowIndex).positionIndex
            == GetStartOfRowTuple(rows, rowIndex - 1).positionIndex + GetLengthOfRow(rows, rowIndex - 1, true)
  {
  }

  function GetPositionIndex(rows: seq<RowEnding>, rowIndex: int, columnIndex: int): (positionIndex: int)
    requires rowIndex <= |rows|
    ensures 0 <= rowIndex < |rows| && 0 <= columnIndex <= GetLengthOfRow(rows, rowIndex, true) ==>
              GetStartOfRowTuple(rows, rowIndex).positionIndex <= positionIndex <= rows[rowIndex].positionIndex
    ensures rowIndex <= 0 ==> positionIndex == columnIndex
  {
    GetStartOfRowTuple(rows, rowIndex).positionIndex + columnIndex
  }

  // ---------------------------------------------------------------------------
  // Position -> (row, row start, row ending): a reverse linear scan

  /**
   * The last entry among rows[..n] whose position is at or before positionIndex,
   * or -1 when every one of them lies after it.
   */
  function LastEndingAtOrBefore(rows: seq<RowEnding>, positionIndex: int, n: int): (i: int)
    requires 0 <= n <= |rows|
    ensures -1 <= i < n
    ensures i >= 0 ==> rows[i].positionIndex <= positionIndex
    ensures forall j :: i < j < n ==> positionIndex < rows[j].positionIndex
    decreases n
  {
    if n == 0 then -1
    else if positionIndex >= rows[n - 1].positionIndex then n - 1
    else LastEndingAtOrBefore(rows, positionIndex, n - 1)
  }

  datatype RowLookup = RowLookup(rowIndex: int, rowStartPositionIndex: int, rowEndingTuple: RowEnding)

  /**
   * The row a position falls in, found by scanning the row endings from the
   * last one back.  The result is the inverse of GetPositionIndex: the row's
   * start plus the column gives the position back.
   */
  function RowOfPosition(rows: seq<RowEnding>, positionIndex: int): (r: RowLookup)
    requires |rows| > 0
    ensures 0 <= r.rowIndex <= |rows|
    ensures r.rowStartPositionIndex == GetStartOfRowTuple(rows, r.rowIndex).positionIndex
    ensures GetPositionIndex(rows, r.rowIndex, positionIndex - r.rowStartPositionIndex) == positionIndex
    ensures 0 <= positionIndex ==> r.rowStartPositionIndex <= positionIndex
    ensures r.rowIndex < |rows| ==> positionIndex < rows[r.rowIndex].positionIndex
    ensures r.rowIndex == 0 <==> forall j :: 0 <= j < |rows| ==> positionIndex < rows[j].positionIndex
    ensures r.rowIndex == 0 ==> r == RowLookup(0, 0, rows[0])
  {
    var i := LastEndingAtOrBefore(rows, positionIndex, |rows|);
    if i >= 0 then
      RowLookup(i + 1, rows[i].positionIndex, if i == |rows| - 1 then rows[i] else rows[i + 1])
    else
      RowLookup(0, 0, rows[0])
  }

  method FindRowIndexRowStartRowEndingTupleFromPositionIndex(rows: seq<RowEnding>, positionIndex: int)
    returns (r: RowLookup)
    requires |rows| > 0
    ensures r == RowOfPosition(rows, positionIndex)
  {
    var i := |rows| - 1;
    while i >= 0
      invariant -1 <= i < |rows|
      invariant forall j :: i < j < |rows| ==> positionIndex < rows[j].positionIndex
    {
      var rowEndingTuple := rows[i];
      if positionIndex >= rowEndingTuple.positionIndex {
        return RowLookup(i + 1, rowEndingTuple.positionIndex,
                         if i == |rows| - 1 then rowEndingTuple else rows[i + 1]);
      }
      i := i - 1;
    }
    return RowLookup(0, 0, rows[0]);
  }

  /**
   * Round trip from coordinates: a position strictly inside a row of a valid
   * index is found again in that row at the same column.  (The position just
   * past a row's end is the start of the next row, so it is excluded.)
   */
  lemma {:induction false} CoordinatesRoundTrip(contentLength: int, rows: seq<RowEnding>, rowIndex: int, columnIndex: int)
    requires RowPositionsValid(contentLength, rows)
    requires 0 <= rowIndex < |rows|
    requires 0 <= columnIndex < GetLengthOfRow(rows, rowIndex, true)
    ensures RowOfPosition(rows, GetPositionIndex(rows, rowIndex, columnIndex)).rowIndex == rowIndex
    ensures var p := GetPositionIndex(rows, rowIndex, columnIndex);
            p - RowOfPosition(rows, p).rowStartPositionIndex == columnIndex
  {
    var p := GetPositionIndex(rows, rowIndex, columnIndex);
    assert p < rows[rowIndex].positionIndex;
  }

  /**
   * A valid index sends every position of the content (and the end) to a row
   * whose column is at most that row's length with its line ending; only the
   * end of the content can land one row past the last.
   */
  lemma PositionOfContentFallsInARow(contentLength: int, rows: seq<RowEnding>, positionIndex: int)
    requires RowPositionsValid(contentLength, rows)
    requires 0 <= positionIndex <= contentLength
    ensures var r := RowOfPosition(rows, positionIndex);
            (r.rowIndex == |rows| <==> positionIndex == contentLength)
            && (r.rowIndex < |rows| ==> 0 <= positionIndex - r.rowStartPositionIndex < GetLengthOfRow(rows, r.rowIndex, true))
  {
    var r := RowOfPosition(rows, positionIndex);
    if r.rowIndex == |rows| {
      assert rows[|rows| - 1].positionIndex <= positionIndex;
    }
  }

  // ---------------------------------------------------------------------------
  // Character-kind boundary scan (Ctrl word-skip)

  /** The first index in [from, limit) whose kind differs from kind, or -1. */
  function FirstDifferingForward(content: seq<RichCharacter>, kind: CharacterKind, from: int, limit: int): (j: int)
    requires 0 <= from && limit <= |content|
    ensures j == -1 || from <= j < limit
    ensures j != -1 ==> GetCharacterKind(content[j].value) != kind
    ensures forall k :: from <= k < (if j == -1 then limit else j) ==> GetCharacterKind(content[k].value) == kind
    decreases limit - from
  {
    if from >= limit then -1
    else if GetCharacterKind(content[from].value) != kind then from
    else FirstDifferingForward(content, kind, from + 1, limit)
  }

  /** The last index in [floor, from] whose kind differs from kind, or -1. */
  function LastDifferingBackward(content: seq<RichCharacter>, kind: CharacterKind, from: int, floor: int): (j: int)
    requires from < |content| && 0 <= floor
    ensures j == -1 || floor <= j <= from
    ensures j != -1 ==> GetCharacterKind(content[j].value) != kind
    ensures forall k :: (if j == -1 then floor else j + 1) <= k <= from ==> GetCharacterKind(content[k].value) == kind
    decreases from - floor
  {
    if from < floor then -1
    else if GetCharacterKind(content[from].value) != kind then from
    else LastDifferingBackward(content, kind, from - 1, floor)
  }

  /**
   * Column of the nearest kind change on a row, scanning from the caret forward
   * (the character at the caret starts the run) or backward (the character
   * before the caret starts the run); -1 when the scan leaves the row first.
   */
  function ColumnOfDifferingKind(content: seq<RichCharacter>, rows: seq<RowEnding>, rowIndex: int, columnIndex: int, moveBackwards: bool): (column: int)
    requires 0 <= rowIndex < |rows|
    requires forall i :: 0 <= i < |rows| ==> 0 <= rows[i].positionIndex
    ensures moveBackwards && columnIndex <= 0 ==> column == -1
    ensures var start := GetStartOfRowTuple(rows, rowIndex).positionIndex;
            var limit := Min(|content|, rows[rowIndex].positionIndex);
            !moveBackwards && column != -1 ==>
              && 0 <= columnIndex < column
              && start + column < limit
              && GetCharacterKind(content[start + column].value) != GetCharacterKind(content[start + columnIndex].value)
              && forall k :: start + columnIndex <= k < start + column ==>
                   GetCharacterKind(content[k].value) == GetCharacterKind(content[start + columnIndex].value)
    ensures var start := GetStartOfRowTuple(rows, rowIndex).positionIndex;
            var limit := Min(|content|, rows[rowIndex].positionIndex);
            !moveBackwards && column == -1 && 0 <= columnIndex && start + columnIndex < limit ==>
              forall k :: start + columnIndex <= k < limit ==>
                GetCharacterKind(content[k].value) == GetCharacterKind(content[start + columnIndex].value)
    ensures var start := GetStartOfRowTuple(rows, rowIndex).positionIndex;
            moveBackwards && column != -1 ==>
              && 0 < column < columnIndex
              && start + columnIndex - 1 < Min(|content|, rows[rowIndex].positionIndex)
              && GetCharacterKind(content[start + column - 1].value) != GetCharacterKind(content[start + columnIndex - 1].value)
              && forall k :: start + column <= k < start + columnIndex ==>
                   GetCharacterKind(content[k].value) == GetCharacterKind(content[start + columnIndex - 1].value)
    ensures var start := GetStartOfRowTuple(rows, rowIndex).positionIndex;
            var limit := Min(|content|, rows[rowIndex].positionIndex);
            moveBackwards && column == -1 && 0 < columnIndex && start + columnIndex - 1 < limit ==>
              forall k :: start <= k < start + columnIndex ==>
                GetCharacterKind(content[k].value) == GetCharacterKind(content[start + columnIndex - 1].value)
  {
    var start := GetStartOfRowTuple(rows, rowIndex).positionIndex;
    var last := rows[rowIndex].positionIndex - 1;
    var position := GetPositionIndex(rows, rowIndex, columnIndex);
    if moveBackwards && position <= start then -1
    else
      var first := if moveBackwards then position - 1 else position;
      if first < 0 || first >= |content| || first > last || first < start then -1
      else
        var kind := GetCharacterKind(content[first].value);
        if moveBackwards then
          var j := LastDifferingBackward(content, kind, first, start);
          if j == -1 then -1 else j + 1 - start
        else
          var j := FirstDifferingForward(content, kind, first, Min(|content|, last + 1));
          if j == -1 then -1 else j - start
  }

  method GetColumnIndexOfCharacterWithDifferingKind(content: seq<RichCharacter>, rows: seq<RowEnding>, rowIndex: int, columnIndex: int, moveBackwards: bool)
    returns (column: int)
    requires 0 <= rowIndex < |rows|
    requires forall i :: 0 <= i < |rows| ==> 0 <= rows[i].positionIndex
    ensures column == ColumnOfDifferingKind(content, rows, rowIndex, columnIndex, moveBackwards)
  {
    var iterateBy := if moveBackwards then -1 else 1;
    var startOfRowPositionIndex := GetStartOfRowTuple(rows, rowIndex).positionIndex;
    var lastPositionIndexOnRow := rows[rowIndex].positionIndex - 1;
    var positionIndex := GetPositionIndex(rows, rowIndex, columnIndex);
    if moveBackwards {
      if positionIndex <= startOfRowPositionIndex {
        return -1;
      }
      positionIndex := positionIndex - 1;
    }
    if positionIndex < 0 || positionIndex >= |content| {
      return -1;
    }
    var startingCharacterKind := GetCharacterKind(content[positionIndex].value);
    ghost var first := positionIndex;
    ghost var limit := Min(|content|, lastPositionIndexOnRow + 1);
    while true
      invariant 0 <= startOfRowPositionIndex
      invariant 0 <= first < |content|
      invariant moveBackwards ==> startOfRowPositionIndex - 1 <= positionIndex <= first
      invariant moveBackwards && positionIndex < first ==> startOfRowPositionIndex <= first < limit
      invariant !moveBackwards ==> first <= positionIndex
      invariant !moveBackwards && first < positionIndex ==> startOfRowPositionIndex <= first && positionIndex <= limit
      invariant moveBackwards ==> forall k :: positionIndex < k <= first ==> GetCharacterKind(content[k].value) == startingCharacterKind
      invariant !moveBackwards ==> forall k :: first <= k < positionIndex ==> GetCharacterKind(content[k].value) == startingCharacterKind
      decreases if moveBackwards then positionIndex - startOfRowPositionIndex + 1 else |content| - positionIndex
    {
      if positionIndex >= |content| || positionIndex > lastPositionIndexOnRow || positionIndex < startOfRowPositionIndex {
        return -1;
      }
      if GetCharacterKind(content[positionIndex].value) != startingCharacterKind {
        break;
      }
      positionIndex := positionIndex + iterateBy;
    }
    if moveBackwards {
      positionIndex := positionIndex + 1;
    }
    return positionIndex - startOfRowPositionIndex;
  }

  // ---------------------------------------------------------------------------
  // Text extraction

  /** LINQ's Skip(skip).Take(take) on a list: out-of-range counts are cut to the list. */
  function SkipTake<T>(xs: seq<T>, skip: int, take: int): (r: seq<T>)
    ensures |r| <= Max(0, take)
    ensures 0 <= skip <= |xs| ==> r == xs[skip..Min(|xs|, skip + Max(0, take))]
    ensures skip < 0 ==> r == xs[..Min(|xs|, Max(0, take))]
    ensures |xs| <= skip ==> r == []
  {
    var from := if skip < 0 then 0 else Min(skip, |xs|);
    xs[from..Min(|xs|, from + Max(0, take))]
  }

  /** The characters of the content, in order. */
  function GetAllText(content: seq<RichCharacter>): (text: string)
    ensures |text| == |content|
    ensures forall i :: 0 <= i < |content| ==> text[i] == content[i].value
  {
    if content == [] then [] else [content[0].value] + GetAllText(content[1..])
  }

  /** Up to count characters from startingPositionIndex, cut at the end of the content. */
  function GetTextRange(content: seq<RichCharacter>, startingPositionIndex: int, count: int): (text: string)
    ensures |text| <= Max(0, count)
    ensures 0 <= startingPositionIndex <= |content| ==>
              text == GetAllText(content)[startingPositionIndex..Min(|content|, startingPositionIndex + Max(0, count))]
    ensures startingPositionIndex < 0 ==> text == GetAllText(content)[..Min(|content|, Max(0, count))]
    ensures |content| <= startingPositionIndex ==> text == ""
  {
    GetAllText(SkipTake(content, startingPositionIndex, count))
  }

  // ---------------------------------------------------------------------------
  // Rows of content

  /** The content of one row, line ending included. */
  function RowSlice(content: seq<RichCharacter>, rows: seq<RowEnding>, rowIndex: int): seq<RichCharacter>
    requires 0 <= rowIndex < |rows|
  {
    var start := GetStartOfRowTuple(rows, rowIndex).positionIndex;
    SkipTake(content, start, rows[rowIndex].positionIndex - start)
  }

  method GetRows(content: seq<RichCharacter>, rows: seq<RowEnding>, startingRowIndex: int, count: int)
    returns (result: seq<seq<RichCharacter>>)
    requires 0 <= startingRowIndex || count <= 0
    ensures |result| == Max(0, Min(count, |rows| - startingRowIndex))
    ensures forall k :: 0 <= k < |result| ==> result[k] == RowSlice(content, rows, startingRowIndex + k)
  {
    var rowCountAvailable := |rows| - startingRowIndex;
    var rowCountToReturn := if count < rowCountAvailable then count else rowCountAvailable;
    var endingRowIndexExclusive := startingRowIndex + rowCountToReturn;
    result := [];
    var i := startingRowIndex;
    while i < endingRowIndexExclusive
      invariant startingRowIndex <= i
      invariant i <= Max(startingRowIndex, endingRowIndexExclusive)
      invariant |result| == i - startingRowIndex
      invariant forall k :: 0 <= k < |result| ==> result[k] == RowSlice(content, rows, startingRowIndex + k)
    {
      var startOfRowInclusive := GetStartOfRowTuple(rows, i).positionIndex;
      var endOfRowExclusive := rows[i].positionIndex;
      var row := SkipTake(content, startOfRowInclusive, endOfRowExclusive - startOfRowInclusive);
      result := result + [row];
      i := i + 1;
    }
  }

  /** In a valid index a row is exactly its span of content, as long as its length with line ending. */
  lemma RowSliceIsRowContent(content: seq<RichCharacter>, rows: seq<RowEnding>, rowIndex: int)
    requires RowPositionsValid(|content|, rows)
    requires 0 <= rowIndex < |rows|
    ensures RowSlice(content, rows, rowIndex)
            == content[GetStartOfRowTuple(rows, rowIndex).positionIndex..rows[rowIndex].positionIndex]
    ensures |RowSlice(content, rows, rowIndex)| == GetLengthOfRow(rows, rowIndex, true)
  {
    RowLengthBounds(|content|, rows, rowIndex);
  }

  /** Concatenation of a list of rows. */
  function Flatten<T>(xss: seq<seq<T>>): seq<T> {
    if xss == [] then [] else Flatten(xss[..|xss| - 1]) + xss[|xss| - 1]
  }

  /** The first n rows of the content, as GetRows(0, n) lists them. */
  function FirstRows(content: seq<RichCharacter>, rows: seq<RowEnding>, n: int): (r: seq<seq<RichCharacter>>)
    requires 0 <= n <= |rows|
    ensures |r| == n
    ensures forall k :: 0 <= k < n ==> r[k] == RowSlice(content, rows, k)
  {
    if n == 0 then [] else FirstRows(content, rows, n - 1) + [RowSlice(content, rows, n - 1)]
  }

  lemma FlattenAppend<T>(xss: seq<seq<T>>, xs: seq<T>)
    ensures Flatten(xss + [xs]) == Flatten(xss) + xs
  {
    assert (xss + [xs])[..|xss|] == xss;
  }

  /** The rows of a valid index cut the content into consecutive pieces that join back into it. */
  lemma {:induction false} RowsPartitionContent(content: seq<RichCharacter>, rows: seq<RowEnding>, n: int)
    requires RowPositionsValid(|content|, rows)
    requires 0 <= n <= |rows|
    ensures Flatten(FirstRows(content, rows, n)) == content[..GetStartOfRowTuple(rows, n).positionIndex]
    ensures n == |rows| ==> Flatten(FirstRows(content, rows, n)) == content
  {
    if n > 0 {
      var a := GetStartOfRowTuple(rows, n - 1).positionIndex;
      var b := rows[n - 1].positionIndex;
      RowLengthBounds(|content|, rows, n - 1);
      assert 0 <= a <= b <= |content|;
      var row := RowSlice(content, rows, n - 1);
      var prefix := FirstRows(content, rows, n - 1);
      RowsPartitionContent(content, rows, n - 1);
      assert Flatten(prefix) == content[..a];
      RowSliceIsRowContent(content, rows, n - 1);
      assert row == content[a..b];
      assert FirstRows(content, rows, n) == prefix + [row];
      FlattenAppend(prefix, row);
      JoinAdjacentSlices(content, a, b);
      assert Flatten(FirstRows(content, rows, n)) == content[..b];
    }
  }

  lemma JoinAdjacentSlices<T>(xs: seq<T>, a: int, b: int)
    requires 0 <= a <= b <= |xs|
    ensures xs[..a] + xs[a..b] == xs[..b]
  {
  }

  // ---------------------------------------------------------------------------
  // Tabs

  /** Drops the leading positions below bound. */
  function SkipWhileBelow(positions: seq<int>, bound: int): (rest: seq<int>)
    ensures |rest| <= |positions|
  {
    if positions != [] && positions[0] < bound then SkipWhileBelow(positions[1..], bound) else positions
  }

  /** The leading positions below bound. */
  function TakeWhileBelow(positions: seq<int>, bound: int): (taken: seq<int>)
    ensures |taken| <= |positions|
  {
    if positions != [] && positions[0] < bound then [positions[0]] + TakeWhileBelow(positions[1..], bound) else []
  }

  /** Tabs of the row before the given column: skip the earlier tabs, take those before the column. */
  function GetTabsCountOnSameRowBeforeCursor(tabKeyPositions: seq<int>, rows: seq<RowEnding>, rowIndex: int, columnIndex: int)
    : (count: int)
    requires rowIndex <= |rows|
    ensures 0 <= count <= |tabKeyPositions|
  {
    var startOfRowPositionIndex := GetStartOfRowTuple(rows, rowIndex).positionIndex;
    |TakeWhileBelow(SkipWhileBelow(tabKeyPositions, startOfRowPositionIndex), startOfRowPositionIndex + columnIndex)|
  }

  predicate Sorted(xs: seq<int>) {
    forall i, j :: 0 <= i < j < |xs| ==> xs[i] <= xs[j]
  }

  /** How many of xs lie in [lo, hi). */
  function CountInRange(xs: seq<int>, lo: int, hi: int): nat {
    if xs == [] then 0 else (if lo <= xs[0] < hi then 1 else 0) + CountInRange(xs[1..], lo, hi)
  }

  lemma {:induction false} CountInRangeAllAbove(xs: seq<int>, lo: int, hi: int)
    requires forall k :: 0 <= k < |xs| ==> hi <= xs[k]
    ensures CountInRange(xs, lo, hi) == 0
  {
    if xs != [] {
      CountInRangeAllAbove(xs[1..], lo, hi);
    }
  }

  lemma {:induction false} SkipWhileBelowKeepsCount(xs: seq<int>, lo: int, hi: int)
    requires Sorted(xs)
    ensures var ys := SkipWhileBelow(xs, lo);
            Sorted(ys) && (forall k :: 0 <= k < |ys| ==> lo <= ys[k]) && CountInRange(ys, lo, hi) == CountInRange(xs, lo, hi)
  {
    if xs != [] && xs[0] < lo {
      SkipWhileBelowKeepsCount(xs[1..], lo, hi);
    }
  }

  lemma {:induction false} TakeWhileBelowCounts(ys: seq<int>, lo: int, hi: int)
    requires Sorted(ys)
    requires forall k :: 0 <= k < |ys| ==> lo <= ys[k]
    ensures |TakeWhileBelow(ys, hi)| == CountInRange(ys, lo, hi)
  {
    if ys != [] {
      if ys[0] < hi {
        TakeWhileBelowCounts(ys[1..], lo, hi);
      } else {
        CountInRangeAllAbove(ys, lo, hi);
      }
    }
  }

  /** With tab positions kept in ascending order, the count is the number of tabs between row start and caret. */
  lemma TabsCountIsTabsInRange(tabKeyPositions: seq<int>, rows: seq<RowEnding>, rowIndex: int, columnIndex: int)
    requires rowIndex <= |rows|
    requires Sorted(tabKeyPositions)
    ensures var start := GetStartOfRowTuple(rows, rowIndex).positionIndex;
            GetTabsCountOnSameRowBeforeCursor(tabKeyPositions, rows, rowIndex, columnIndex)
            == CountInRange(tabKeyPositions, start, start + columnIndex)
  {
    var start := GetStartOfRowTuple(rows, rowIndex).positionIndex;
    var rest := SkipWhileBelow(tabKeyPositions, start);
    SkipWhileBelowKeepsCount(tabKeyPositions, start, start + columnIndex);
    TakeWhileBelowCounts(rest, start, start + columnIndex);
    assert GetTabsCountOnSameRowBeforeCursor(tabKeyPositions, rows, rowIndex, columnIndex)
           == |TakeWhileBelow(rest, start + columnIndex)|;
  }
}
