# Blazor text editor core, in Dafny

A model of the editing core of a Blazor text editor, with proofs about it:

- **Text buffer** (`TextBuffer`, `Editor`). A buffer is a flat list of rich characters (a character and a decoration byte) and a list of row endings. Each row ending gives the exclusive end offset of its row, line ending included, and the kind of line ending (`\r`, `\n`, `\r\n`, or the empty start/end-of-file markers).
  - The queries covered: row start and length, position from (row, column) and back by a reverse scan, the Ctrl word-skip scan for a change of character kind, rows, text ranges and tabs.
  - The buffer object (`Editor.TextEditorBase`) paints lexer decorations in place and keeps an undo/redo history of edit blocks, each holding a content snapshot.
  - Delete and insert requests are turned into keyboard events for the edit engine.
- **Cursor movement**. One keyboard event (key, Shift, Ctrl) moves a cursor: its caret, its preferred column, and its selection (anchor and ending).
  - The rules are one specification function, `CursorMovement.NextCursorState`, with a flag for the upper-row clamp.
  - The two cursor classes (`EditorCursor.TextEditorCursor`, `Cursor.TextEditorCursor`) update their fields in `MoveCursor` and are proved to follow it. The first runs without the clamp, the second with it.
- **Reducers**. These are pure functions from an old collection to a new one:
  - the editor groups (tabs) with their active view model (`Groups`);
  - the registered view models (`ViewModels`).
- **Diagnostic bag** (`Diagnostics`): an append-only log of lexer diagnostics, kept in report order.

Integers are unbounded. The source's `int` arithmetic here never comes near 32-bit limits for buffers that fit in memory, so no wrap-around is modelled. Keys are GUID wrappers, written as numbers, with the empty GUID as 0.

## Model

| member | source | states |
|---|---|---|
| TextBuffer.GetStartOfRowTuple | BlazorTextEditor.RazorLib/TextEditor/TextEditorBase.PublicMethods.cs:17-22 | Row 0 starts at offset 0 with the start-of-file marker. Any later row starts at the ending entry of the row before it. |
| TextBuffer.GetLengthOfRow | BlazorTextEditor.RazorLib/TextEditor/TextEditorBase.PublicMethods.cs:28-46 | An empty index gives 0. Otherwise the row's start plus its length reaches its ending entry, with the line-ending characters counted in or left out as asked. |
| TextBuffer.RowsAreContiguous | BlazorTextEditor.RazorLib/TextEditor/TextEditorBase.PublicMethods.cs:17-46 | Each row starts where the row before it ends, line ending included. |
| TextBuffer.GetPositionIndex | BlazorTextEditor.RazorLib/TextEditor/TextEditorBase.PublicMethods.cs:262-268 | A column inside a row, line ending included, gives a position inside that row's span. On row 0 the position is the column itself. |
| TextBuffer.RowLengthBounds | BlazorTextEditor.RazorLib/TextEditor/TextEditorBase.PublicMethods.cs:28-46 | In a valid row index, a row's length without its line ending is between 0 and its length with the ending. The two differ by exactly the ending's character count, and the row lies inside the content. |
| TextBuffer.RowOfPosition | BlazorTextEditor.RazorLib/TextEditor/TextEditorBase.PublicMethods.cs:280-297 | The reverse scan's (row, row start) for a position. The row start is the start of that row, and row start + (p - row start) gives p back. A non-negative p is at or after its row start and before its row's end. Row 0 with start 0 and the first entry comes back exactly when p lies before every row ending. |
| TextBuffer.FindRowIndexRowStartRowEndingTupleFromPositionIndex | BlazorTextEditor.RazorLib/TextEditor/TextEditorBase.PublicMethods.cs:280-297 | The loop from the last row ending back to the first returns what RowOfPosition specifies. |
| TextBuffer.CoordinatesRoundTrip | BlazorTextEditor.RazorLib/TextEditor/TextEditorBase.PublicMethods.cs:262-297 | Going from coordinates to a position and back returns the same row and column, for any column inside a row of a valid index. |
| TextBuffer.PositionOfContentFallsInARow | BlazorTextEditor.RazorLib/TextEditor/TextEditorBase.PublicMethods.cs:280-297 | Every position of the content falls in a row, at a column below that row's length with its line ending. Only the end of the content maps one row past the last. |
| TextBuffer.ColumnOfDifferingKind | BlazorTextEditor.RazorLib/TextEditor/TextEditorBase.PublicMethods.cs:304-355 | The Ctrl word-skip column. Backward from column 0 it is -1. A result other than -1 is a column inside the row whose character's kind differs from the starting one, and every character between shares the starting kind. A result of -1 means the whole rest of the row, forward or back, shares that kind. |
| TextBuffer.GetColumnIndexOfCharacterWithDifferingKind | BlazorTextEditor.RazorLib/TextEditor/TextEditorBase.PublicMethods.cs:304-355 | The scanning loop, with its early exits, returns what ColumnOfDifferingKind specifies. |
| TextBuffer.GetAllText | BlazorTextEditor.RazorLib/TextEditor/TextEditorBase.PublicMethods.cs:248-253 | The text has one character per rich character, and character i is the value of rich character i. |
| TextBuffer.GetTextRange | BlazorTextEditor.RazorLib/TextEditor/TextEditorBase.PublicMethods.cs:271-278 | The text is at most count long and is the content's text from the start, cut at the end of the content. A negative start counts from 0; a start at or past the end gives the empty string. |
| TextBuffer.GetRows | BlazorTextEditor.RazorLib/TextEditor/TextEditorBase.PublicMethods.cs:50-81 | Returns max(0, min(count, RowCount - start)) rows. Row k of the result is row start+k of the buffer, line ending included. |
| TextBuffer.RowSliceIsRowContent | BlazorTextEditor.RazorLib/TextEditor/TextEditorBase.PublicMethods.cs:50-81 | In a valid index a returned row is exactly the content from its row start to its row ending, and it is as long as the row with its line ending. |
| TextBuffer.RowsPartitionContent | BlazorTextEditor.RazorLib/TextEditor/TextEditorBase.PublicMethods.cs:50-81 | The first n rows, joined, are the content up to the start of row n. All rows, joined, are the whole content. |
| TextBuffer.GetTabsCountOnSameRowBeforeCursor | BlazorTextEditor.RazorLib/TextEditor/TextEditorBase.PublicMethods.cs:83-93 | The count is never negative and never more than the number of tab positions. TabsCountIsTabsInRange gives its exact value. |
| TextBuffer.TabsCountIsTabsInRange | BlazorTextEditor.RazorLib/TextEditor/TextEditorBase.PublicMethods.cs:83-93 | With the tab positions in ascending order, the tab count before a column is the number of tab positions from the row start up to that column. |
| Editor.PaintedCell | BlazorTextEditor.RazorLib/TextEditor/TextEditorBase.PublicMethods.cs:218-225 | After painting, every cell keeps its character. A cell covered by spans carries the decoration byte of the last span covering it; other cells keep their decoration. |
| Editor.TextEditorBase.ApplyDecorationRange | BlazorTextEditor.RazorLib/TextEditor/TextEditorBase.PublicMethods.cs:218-225 | The nested loops leave the content equal to the spans painted in order (see PaintedCell). |
| Editor.AfterUndo | BlazorTextEditor.RazorLib/TextEditor/TextEditorBase.PublicMethods.cs:399-418 | Undo does nothing at index 0. Otherwise it steps the index back one block, persisting a pending block (a snapshot of the content) first, and restores the content of the block it lands on. The history stays valid. |
| Editor.AfterRedo | BlazorTextEditor.RazorLib/TextEditor/TextEditorBase.PublicMethods.cs:420-430 | Redo steps forward one block and restores its content only while a later persisted block exists, and does nothing otherwise. It never changes the persisted blocks. |
| Editor.UndoThenRedoRestoresContent | BlazorTextEditor.RazorLib/TextEditor/TextEditorBase.PublicMethods.cs:399-430 | Undo followed by redo gives back the content and index from before the undo, whether the current block was pending or persisted. |
| Editor.RedoThenUndoIsIdentity | BlazorTextEditor.RazorLib/TextEditor/TextEditorBase.PublicMethods.cs:399-430 | Redo followed by undo changes nothing when the content matches the current block. |
| Editor.TextEditorBase.EnsureUndoPointForcePersist | BlazorTextEditor.RazorLib/TextEditor/TextEditorBase.PublicMethods.cs:403-410 | Persisting the pending block appends a snapshot of the current content. The index moves up by one, so it points one past the new block (at the block count); UndoEdit then steps it back twice. |
| Editor.TextEditorBase.SetContent | BlazorTextEditor.RazorLib/TextEditor/TextEditorBase.PublicMethods.cs:416 | Restoring a snapshot replaces the characters with it. The row endings and tab positions may change too; how they are rebuilt is left open. |
| Editor.TextEditorBase.ClearEditBlocks | BlazorTextEditor.RazorLib/TextEditor/TextEditorBase.PublicMethods.cs:382-386 | Clearing empties the history and sets the index to 0. |
| Editor.TextEditorBase.UndoEdit | BlazorTextEditor.RazorLib/TextEditor/TextEditorBase.PublicMethods.cs:399-418 | The method moves the buffer to the state AfterUndo specifies and keeps the history valid. |
| Editor.TextEditorBase.RedoEdit | BlazorTextEditor.RazorLib/TextEditor/TextEditorBase.PublicMethods.cs:420-430 | The method moves the buffer to the state AfterRedo specifies and keeps the history valid. |
| Editor.EditOperationOf | BlazorTextEditor.RazorLib/TextEditor/TextEditorBase.PublicMethods.cs:95-107 | An event is a deletion exactly when its key is Backspace or Delete, and an insertion exactly when its key is a character. Any other named key does nothing. |
| Editor.CodeOf | BlazorTextEditor.RazorLib/TextEditor/TextEditorBase.PublicMethods.cs:125-132 | A whitespace character gets its own whitespace code, and any other character is sent as its own code. The code is never empty and never the DELETE code. |
| Editor.DeleteByMotionEvent | BlazorTextEditor.RazorLib/TextEditor/TextEditorBase.PublicMethods.cs:151-179 | Backspace becomes a BACKSPACE key event and Delete a DELETE key event, both of which the edit engine treats as deletions. Any other motion kind is the not-recognized error. |
| Editor.DeleteByRangeEvents | BlazorTextEditor.RazorLib/TextEditor/TextEditorBase.PublicMethods.cs:181-211 | A range of count characters becomes exactly max(0, count) DELETE key events, each a deletion. |
| Editor.InsertTextEvents | BlazorTextEditor.RazorLib/TextEditor/TextEditorBase.PublicMethods.cs:109-149 | Inserted text becomes one character key event per character, in order, with the whitespace codes for `\r`, `\n`, tab and space. Each is an insertion. |
| Selection.TextEditorSelection.constructor | BlazorTextEditor.RazorLib/TextEditor/TextEditorCursor.cs:28 | A new selection has no anchor and ends at 0. |
| Selection.GetSelectionBounds | BlazorTextEditor.RazorLib/TextEditor/TextEditorCursor.cs:168-172 | The bounds are the anchor (0 when absent) and the ending, ordered, lower first. |
| CursorMovement.LeftPlacement | BlazorTextEditor.RazorLib/TextEditor/TextEditorCursor.cs:70-131 | ArrowLeft lands on a row, or one past the last only when collapsing a selection to its lower bound. |
| CursorMovement.RightPlacement | BlazorTextEditor.RazorLib/TextEditor/TextEditorCursor.cs:163-221 | ArrowRight lands on a row, or one past the last only when collapsing a selection to its upper bound. |
| CursorMovement.MovedPlacement | BlazorTextEditor.RazorLib/TextEditor/TextEditorCursor.cs:68-243 | The caret after each key stays on a row or one past the last. Only a collapse to a selection bound can go past the last row. |
| CursorMovement.NextCursorState | BlazorTextEditor.RazorLib/TextEditor/TextEditorCursor.cs:34-256 | Without Shift the anchor is cleared and the ending kept. With Shift, no selection or an empty one gets an anchor at the caret's old position, and a non-empty selection keeps its anchor. The ending becomes the caret's new position. It is defined for a caret one row past the last as well, for every key that does not read the caret's row (CaretRowDefined). |
| CursorMovement.MoveLeft | BlazorTextEditor.RazorLib/Cursor/TextEditorCursor.cs:67-121 | The ArrowLeft case, step by step, yields the caret LeftPlacement specifies. |
| CursorMovement.MoveRight | BlazorTextEditor.RazorLib/Cursor/TextEditorCursor.cs:153-219 | The ArrowRight case, step by step and with or without the clamp, yields the caret RightPlacement specifies. |
| CursorMovement.MoveCaret | BlazorTextEditor.RazorLib/Cursor/TextEditorCursor.cs:65-241 | The key switch, step by step on local coordinates, yields the caret MovedPlacement specifies (for either setting of the clamp). |
| CursorMovement.CollapseLeftLandsOnLowerBound | BlazorTextEditor.RazorLib/TextEditor/TextEditorCursor.cs:72-90 | ArrowLeft with text selected and no Shift puts the caret on the selection's lower bound, drops the anchor and keeps the preferred column. For a selection inside the content the caret is on a row of the document. |
| CursorMovement.CollapseRightLandsOnUpperBound | BlazorTextEditor.RazorLib/Cursor/TextEditorCursor.cs:155-185 | ArrowRight with text selected and no Shift puts the caret on the selection's upper bound. With the clamp the row ends at the end-of-file marker, so pulling the caret back onto the end of the last row keeps that position. |
| CursorMovement.ClampedMoveStaysOnARow | BlazorTextEditor.RazorLib/Cursor/TextEditorCursor.cs:155-185 | With the clamp, a caret on a row, with its selection in the content, is on a row of the document after any key. |
| CursorMovement.UnclampedCollapseLeavesTheDocument | BlazorTextEditor.RazorLib/TextEditor/TextEditorCursor.cs:163-183 | Without the clamp, collapsing the selection 0..2 of the one-row content "ab" to the right puts the caret on row 1, which does not exist. |
| CursorMovement.RightThenLeftReturns | BlazorTextEditor.RazorLib/TextEditor/TextEditorCursor.cs:70-222 | With nothing selected, ArrowRight then ArrowLeft returns the caret to its row and column, also across a row end. The end of the document, where ArrowRight does not move, is excluded. |
| CursorMovement.VerticalMoveClipsToPreferredColumn | BlazorTextEditor.RazorLib/TextEditor/TextEditorCursor.cs:133-162 | ArrowUp and ArrowDown move one row when such a row exists, and put the caret on min(preferred column, length of the new row's text). The preferred column is left as it was. At the first row (Up) or the last row (Down) the caret stays where it is. |
| CursorMovement.DownAcrossShorterRowRestoresColumn | BlazorTextEditor.RazorLib/TextEditor/TextEditorCursor.cs:133-147 | Two ArrowDown presses across a row shorter than the preferred column clip the caret to that row's end, then land on the preferred column again on a long enough row. |
| CursorMovement.KeysFromPastTheLastRow | BlazorTextEditor.RazorLib/TextEditor/TextEditorCursor.cs:133-242 | From one row past the last, ArrowUp returns to the last row. Ctrl+Home goes to the first row and Ctrl+End to the last. ArrowDown and plain Home leave the row as it is. |
| CursorMovement.DownThenUpReturns | BlazorTextEditor.RazorLib/TextEditor/TextEditorCursor.cs:133-162 | With the caret on its preferred column, ArrowDown lands on the row below at the preferred column clipped to that row, even when the row is shorter. ArrowUp then returns to the starting row and column, and the preferred column is kept throughout. |
| CursorMovement.HomeAndEndTargets | BlazorTextEditor.RazorLib/TextEditor/TextEditorCursor.cs:223-242 | Home goes to column 0, and End to the end of the row's text before its line ending. With Ctrl they go to the first and last row. Both set the preferred column to the new column. |
| CursorMovement.CtrlRightSkipsOneRun | BlazorTextEditor.RazorLib/TextEditor/TextEditorCursor.cs:194-213 | Ctrl+ArrowRight from inside a row's text stays on the row, moves right, and sets the preferred column to the new column. Every character it skips has the kind of the character under the caret. It stops either on a character of a different kind, or at the end of the row's text when the kind never changes. |
| CursorMovement.CtrlRightStaysInRowText | BlazorTextEditor.RazorLib/TextEditor/TextEditorCursor.cs:194-213 | When every row ends with the characters of its line ending, Ctrl+ArrowRight from inside a row's text never stops past the end of that text. |
| CursorMovement.ForwardScanStopsBeforeLineEnding | BlazorTextEditor.RazorLib/TextEditor/TextEditorBase.PublicMethods.cs:304-355 | When every row ends with the characters of its line ending, the forward kind scan from inside a row's text returns a column no later than the end of that text, because line endings are whitespace. |
| CursorMovement.CtrlLeftSkipsOneRun | BlazorTextEditor.RazorLib/TextEditor/TextEditorCursor.cs:104-123 | Ctrl+ArrowLeft from inside a row stays on the row, moves left, and sets the preferred column to the new column. Every character it skips has the kind of the character before the caret. It stops just after a character of a different kind, or at column 0 when the scan finds none (-1). |
| CursorMovement.LeftStepRules | BlazorTextEditor.RazorLib/TextEditor/TextEditorCursor.cs:91-129 | ArrowLeft with nothing to collapse does not move at row 0, column 0. At column 0 of a later row it wraps to the end of the previous row's text, and without Ctrl it otherwise steps back one column. Whenever the caret moves, the preferred column becomes the new column. |
| CursorMovement.RightStepRules | BlazorTextEditor.RazorLib/TextEditor/TextEditorCursor.cs:184-219 | ArrowRight with nothing to collapse wraps from the end of a row's text to column 0 of the next row. At the end of the last row it does not move, and without Ctrl it otherwise steps forward one column. Whenever the caret moves, the preferred column becomes the new column. |
| EditorCursor.TextEditorCursor.constructor | BlazorTextEditor.RazorLib/TextEditor/TextEditorCursor.cs:15-17 | A new cursor is at (0, 0) with preferred column 0 and an empty selection. |
| EditorCursor.TextEditorCursor.FromCoordinates | BlazorTextEditor.RazorLib/TextEditor/TextEditorCursor.cs:19-23 | A cursor made at coordinates has them, and its preferred column stays 0. |
| EditorCursor.TextEditorCursor.MoveCursor | BlazorTextEditor.RazorLib/TextEditor/TextEditorCursor.cs:34-256 | The cursor's coordinates, preferred column and selection become NextCursorState without the clamp. |
| EditorCursor.TextEditorCursor.GetSelectedText | BlazorTextEditor.RazorLib/TextEditor/TextEditorCursor.cs:258-281 | No text when nothing is selected, and never an empty string. A selection inside the content yields exactly the characters between its bounds; one starting at or past the end yields none. |
| Cursor.TextEditorCursor.constructor | BlazorTextEditor.RazorLib/Cursor/TextEditorCursor.cs:9-12 | A new cursor keeps the primary flag it was given and starts at (0, 0) with an empty selection. |
| Cursor.TextEditorCursor.FromCoordinates | BlazorTextEditor.RazorLib/Cursor/TextEditorCursor.cs:14-19 | A cursor made at coordinates has them, prefers its own column, and keeps the primary flag it was given. |
| Cursor.TextEditorCursor.MoveCursor | BlazorTextEditor.RazorLib/Cursor/TextEditorCursor.cs:31-254 | The cursor becomes NextCursorState with the clamp. A caret on a row, with its selection in the content, stays on a row. |
| Groups.IndexOfGroup | BlazorTextEditor.RazorLib/Store/TextEditorCase/Group/TextEditorGroupsCollection.Reducer.cs:15-18 | The index of the first group with the key, or -1 when no group has it. |
| Groups.IndexOfViewModelKey | BlazorTextEditor.RazorLib/Store/TextEditorCase/Group/TextEditorGroupsCollection.Reducer.cs:90-92 | The index of the first occurrence of the key, or -1 exactly when the key is not listed. |
| Groups.ReduceRegisterGroup | BlazorTextEditor.RazorLib/Store/TextEditorCase/Group/TextEditorGroupsCollection.Reducer.cs:11-30 | A known group key leaves the collection unchanged. Otherwise the group is appended at the end. |
| Groups.ReduceAddViewModelToGroup | BlazorTextEditor.RazorLib/Store/TextEditorCase/Group/TextEditorGroupsCollection.Reducer.cs:33-75 | An unknown group, or a view model it already lists, leaves the collection unchanged. Otherwise the key is appended to that group only, and becomes active exactly when it is the group's first. The group keys and their order never change. |
| Groups.NextActiveViewModelKey | BlazorTextEditor.RazorLib/Store/TextEditorCase/Group/TextEditorGroupsCollection.Reducer.cs:101-121 | The next active key is the empty key when the last view model goes. Otherwise it is the key after the removed one, or the one before it when the removed key was last. In the list after the removal, that is the key that moves into the removed slot, or the new last key. |
| Groups.ReduceRemoveViewModelFromGroup | BlazorTextEditor.RazorLib/Store/TextEditorCase/Group/TextEditorGroupsCollection.Reducer.cs:78-137 | An unknown group, or a view model it does not list, leaves the collection unchanged. Otherwise the first occurrence is removed from that group only, and the active key is set as NextActiveViewModelKey says. |
| Groups.ReduceSetActiveViewModelOfGroup | BlazorTextEditor.RazorLib/Store/TextEditorCase/Group/TextEditorGroupsCollection.Reducer.cs:140-165 | An unknown group leaves the collection unchanged. Otherwise only that group's active key changes, with no membership check. |
| Groups.RegisterKeepsGroupKeysUnique | BlazorTextEditor.RazorLib/Store/TextEditorCase/Group/TextEditorGroupsCollection.Reducer.cs:15-29 | Registration keeps group keys unique, and afterwards the key is registered. |
| Groups.RegisterIsIdempotent | BlazorTextEditor.RazorLib/Store/TextEditorCase/Group/TextEditorGroupsCollection.Reducer.cs:15-21 | Registering the same group twice is the same as registering it once. |
| Groups.AddKeepsViewModelKeysDistinct | BlazorTextEditor.RazorLib/Store/TextEditorCase/Group/TextEditorGroupsCollection.Reducer.cs:45-52 | Adding never lists a view model twice in a group. |
| Groups.RemoveLeavesActiveInGroup | BlazorTextEditor.RazorLib/Store/TextEditorCase/Group/TextEditorGroupsCollection.Reducer.cs:97-127 | After a removal the group is one shorter. Its active key is one it still lists, or the empty key when it lists none. |
| Groups.AddThenRemoveRestoresViewModelKeys | BlazorTextEditor.RazorLib/Store/TextEditorCase/Group/TextEditorGroupsCollection.Reducer.cs:51-131 | Adding a new view model and removing it again gives the group back its list (and the empty active key if it was empty). Every other group is left as it was. |
| ViewModels.IndexOfViewModel | BlazorTextEditor.RazorLib/Store/TextEditorCase/ViewModel/TextEditorViewModelsCollection.Reducer.cs:17-18 | The index of the first view model with the key, or -1 when none has it. |
| ViewModels.ReduceRegisterAction | BlazorTextEditor.RazorLib/Store/TextEditorCase/ViewModel/TextEditorViewModelsCollection.Reducer.cs:13-38 | A known key leaves the collection unchanged. Otherwise one view model with the given view-model key, model key and no rows is appended. |
| ViewModels.ReduceDisposeAction | BlazorTextEditor.RazorLib/Store/TextEditorCase/ViewModel/TextEditorViewModelsCollection.Reducer.cs:41-58 | An unknown key leaves the collection unchanged. Otherwise that view model is removed, the list is one shorter, and the others keep their order. |
| ViewModels.ReduceSetViewModelWithAction | BlazorTextEditor.RazorLib/Store/TextEditorCase/ViewModel/TextEditorViewModelsCollection.Reducer.cs:61-81 | An unknown key leaves the collection unchanged. Otherwise the view model is replaced in place by the function's result, and the others are unchanged. |
| ViewModels.ReducersKeepViewModelKeysUnique | BlazorTextEditor.RazorLib/Store/TextEditorCase/ViewModel/TextEditorViewModelsCollection.Reducer.cs:17-21 | Register and dispose keep view-model keys unique. Set-with does too when the function keeps the key. |
| ViewModels.DisposeRemovesTheKey | BlazorTextEditor.RazorLib/Store/TextEditorCase/ViewModel/TextEditorViewModelsCollection.Reducer.cs:41-58 | When keys are unique, no view model with the key is left after disposing it. |
| ViewModels.RegisterThenDispose | BlazorTextEditor.RazorLib/Store/TextEditorCase/ViewModel/TextEditorViewModelsCollection.Reducer.cs:13-58 | After registering, the key is found (showing the given model if it was new). Disposing it afterwards leaves no view model with the key. |
| Diagnostics.UnexpectedTokenMessage | BlazorTextEditor.RazorLib/Analysis/TextEditorDiagnosticBag.cs:45 | The message is the fixed prefix followed by the token in single quotes. |
| Diagnostics.TokenOfUnexpectedTokenMessage | BlazorTextEditor.RazorLib/Analysis/TextEditorDiagnosticBag.cs:39-47 | A message read as an unexpected-token message has the fixed prefix and is 20 characters longer than the token read from it. |
| Diagnostics.UnexpectedTokenMessageRoundTrip | BlazorTextEditor.RazorLib/Analysis/TextEditorDiagnosticBag.cs:39-47 | The token can be read back from the message reported for it. |
| Diagnostics.UnexpectedTokenMessageIsInjective | BlazorTextEditor.RazorLib/Analysis/TextEditorDiagnosticBag.cs:39-47 | Different tokens give different messages, so a message names one token. |
| Diagnostics.TextEditorDiagnosticBag.constructor | BlazorTextEditor.RazorLib/Analysis/TextEditorDiagnosticBag.cs:8 | A new bag holds no diagnostics. |
| Diagnostics.TextEditorDiagnosticBag.Enumerate | BlazorTextEditor.RazorLib/Analysis/TextEditorDiagnosticBag.cs:10-18 | Enumerating yields exactly the stored diagnostics, in the order they were reported. |
| Diagnostics.TextEditorDiagnosticBag.Report | BlazorTextEditor.RazorLib/Analysis/TextEditorDiagnosticBag.cs:20-29 | Exactly one diagnostic with the given level, message and span is appended at the end. Earlier ones stay unchanged and in order, so enumeration yields report order. |
| Diagnostics.TextEditorDiagnosticBag.ReportEndOfFileUnexpected | BlazorTextEditor.RazorLib/Analysis/TextEditorDiagnosticBag.cs:31-37 | Appends one Error with the message "'End of file' was unexpected." |
| Diagnostics.TextEditorDiagnosticBag.ReportUnexpectedToken | BlazorTextEditor.RazorLib/Analysis/TextEditorDiagnosticBag.cs:39-47 | Appends one Error whose message quotes the token after "Unexpected token: ". |

## Left out

- **Buffer internals not shown:**
  - PerformInsertions, PerformDeletions and the row-index updates they make are not part of this model. Edits stop at the keyboard events handed to them, and `Editor.EditOperationOf` says which of the two an event reaches.
  - The row-index rebuild in SetContent is not part of this model.
  - Editor.TextEditorBase.SetContent: only the characters are stated. The row endings and tab positions are in its frame, but the contract says nothing about their new values.
  - Editor.TextEditorBase.UndoEdit, Editor.TextEditorBase.RedoEdit: the same holds for the row endings and tab positions, which both restore through SetContent.
  - Editor.TextEditorBase.EnsureUndoPointForcePersist: only the ForcePersistEditBlock use that UndoEdit makes is modelled. The coalescing of consecutive edits of one kind is not part of this model.
- **Failure paths stated as preconditions:** an out-of-range row or span throws in the source. The model states these as requires:
  - for the cursor moves, a caret row inside the buffer, or one past the last for the keys that do not read the caret's row (`CursorMovement.ReadsCaretRow`). From there ArrowRight (unless it collapses a selection), plain End and Ctrl+ArrowLeft away from column 0 index past the row list;
  - a row inside the buffer for the Ctrl scan;
  - for GetRows, a start of at least 0 unless count is at most 0. A negative start with a positive count indexes before the row list; with count <= 0 the source returns no rows, as the model does;
  - spans inside the content for ApplyDecorationRange;
  - a non-empty row index for the position lookup.
- **Exact character lists:** GetCharacterKind is a fixed, total classification (space, tab, CR and LF are whitespace; ASCII punctuation is punctuation; everything else is a letter or digit). The character facts it stands for are not part of this model.
- **Selection helpers:** HasSelectedText and GetSelectionBounds of the selection helper are taken to match the inline code of the TextEditor cursor (anchor set and different from the ending; the anchor defaults to 0).
- **Not modelled, and why:**
  - TextCursorKind and ShouldRevealCursor: rendering state; no movement rule reads them.
  - Cursor snapshots and the cancellation token of the edit actions: only forwarded.
  - ApplySyntaxHighlightingAsync: an asynchronous lexer call.
  - The text-editor service, its dispatch and interop.
- **View model:** only its keys and its virtualization result (empty on registration) are modelled. The service reference and the two constructor flags are not.
- Editor.TextEditorBase.ApplyDecorationRange, TextBuffer.GetRows: in the source the rich characters are shared objects. GetRows, GetAllRichCharacters and a view model's virtualization result copy references to the same cells, so rows handed out earlier show any later painting. The model's rows are values (`seq<RichCharacter>`), so rows taken before ApplyDecorationRange keep the decoration bytes they had. This aliasing is not part of this model.
- **Rows and columns without clamp:** the movement rules do not promise that the column stays within the row. A caret placed inside a CRLF pair by a collapse can step past the row's end in the source too.

## Findings

| source | as written | input that shows it | evidently intended | confidence | as-written member | corrected member |
|---|---|---|---|---|---|---|
| BlazorTextEditor.RazorLib/TextEditor/TextEditorCursor.cs:163-183 | ArrowRight without Shift collapses a selection to its upper bound's row, with no check that the row exists | Content "ab", one row ending at 2 (end of file), selection anchor 0 and ending 2, caret at (0, 0). ArrowRight gives row 1 of a one-row buffer | The caret stays on the last row at the end of its text, as BlazorTextEditor.RazorLib/Cursor/TextEditorCursor.cs:170-178 does | high, not executed | CursorMovement.UnclampedCollapseLeavesTheDocument | CursorMovement.ClampedMoveStaysOnARow |
