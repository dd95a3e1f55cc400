/**
 * The mutable side of the text buffer (TextEditorBase): painting lexer
 * decorations onto the characters, the undo/redo history of edit blocks, and
 * the translation of delete and insert requests into keyboard events for the
 * edit engine.
 */
module Editor {
  import opened TextBuffer
  import opened Wrappers
  import Keyboard

  // ---------------------------------------------------------------------------
  // Decoration painting

  /** A span paints nothing, or lies inside a content of length n. */
  predicate SpanFits(span: TextEditorTextSpan, n: int) {
    span.endingIndexExclusive <= span.startingIndexInclusive
    || (0 <= span.startingIndexInclusive && span.endingIndexExclusive <= n)
  }

  predicate Covers(span: TextEditorTextSpan, k: int) {
    span.startingIndexInclusive <= k < span.endingIndexExclusive
  }

  /** The content with one span's decoration written over the cells it covers. */
  function PaintSpan(content: seq<RichCharacter>, span: TextEditorTextSpan): (r: seq<RichCharacter>)
    ensures |r| == |content|
  {
    seq(|content|, k requires 0 <= k < |content| =>
      if Covers(span, k) then content[k].(decorationByte := span.decorationByte) else content[k])
  }

  /** The content after painting the spans in the order given. */
  function Painted(content: seq<RichCharacter>, spans: seq<TextEditorTextSpan>): (r: seq<RichCharacter>)
    ensures |r| == |content|
  {
    if spans == [] then content
    else PaintSpan(Painted(content, spans[..|spans| - 1]), spans[|spans| - 1])
  }

  /** The decoration of the last span that covers cell k, if any does. */
  function LastCovering(spans: seq<TextEditorTextSpan>, k: int): Option<int> {
    if spans == [] then None
    else if Covers(spans[|spans| - 1], k) then Some(spans[|spans| - 1].decorationByte)
    else LastCovering(spans[..|spans| - 1], k)
  }

  /**
   * After painting, a cell keeps its character and carries the decoration of
   * the last span covering it; a cell no span covers keeps its decoration.
   */
  lemma {:induction false} PaintedCell(content: seq<RichCharacter>, spans: seq<TextEditorTextSpan>, k: int)
    requires 0 <= k < |content|
    ensures Painted(content, spans)[k].value == content[k].value
    ensures Painted(content, spans)[k].decorationByte
            == match LastCovering(spans, k)
               case Some(b) => b
               case None => content[k].decorationByte
  {
    if spans != [] {
      PaintedCell(content, spans[..|spans| - 1], k);
    }
  }

  // ---------------------------------------------------------------------------
  // Undo/redo history

  datatype TextEditKind = Insertion | Deletion | Other | ForcePersistEditBlock

  datatype EditBlock = EditBlock(textEditKind: TextEditKind, contentSnapshot: seq<RichCharacter>)

  /** The part of the buffer the history works on. */
  datatype HistoryState = HistoryState(content: seq<RichCharacter>, editBlocksPersisted: seq<EditBlock>, editBlockIndex: int)

  /** The index points at a persisted block, or one past them while an edit block is pending. */
  predicate HistoryValid(h: HistoryState) {
    0 <= h.editBlockIndex <= |h.editBlocksPersisted|
  }

  predicate IsPending(h: HistoryState) {
    h.editBlockIndex == |h.editBlocksPersisted|
  }

  /**
   * Undo: nothing at index 0; otherwise step back one block (after persisting a
   * pending block with a snapshot of the current content) and restore its snapshot.
   */
  function AfterUndo(h: HistoryState): (r: HistoryState)
    requires HistoryValid(h)
    ensures HistoryValid(r)
    ensures h.editBlockIndex == 0 ==> r == h
    ensures h.editBlockIndex > 0 ==>
              && r.editBlockIndex == h.editBlockIndex - 1 < |r.editBlocksPersisted|
              && r.content == r.editBlocksPersisted[r.editBlockIndex].contentSnapshot
    ensures r.editBlocksPersisted
            == if h.editBlockIndex > 0 && IsPending(h)
               then h.editBlocksPersisted + [EditBlock(ForcePersistEditBlock, h.content)]
               else h.editBlocksPersisted
  {
    if h.editBlockIndex == 0 then h
    else
      var blocks := if IsPending(h) then h.editBlocksPersisted + [EditBlock(ForcePersistEditBlock, h.content)]
                    else h.editBlocksPersisted;
      var index := h.editBlockIndex - 1;
      HistoryState(blocks[index].contentSnapshot, blocks, index)
  }

  /** Redo: step forward one block and restore its snapshot, only while a later persisted block exists. */
  function AfterRedo(h: HistoryState): (r: HistoryState)
    requires HistoryValid(h)
    ensures HistoryValid(r)
    ensures r.editBlocksPersisted == h.editBlocksPersisted
    ensures h.editBlockIndex < |h.editBlocksPersisted| - 1 ==>
              r.editBlockIndex == h.editBlockIndex + 1
              && r.content == h.editBlocksPersisted[r.editBlockIndex].contentSnapshot
    ensures h.editBlockIndex >= |h.editBlocksPersisted| - 1 ==> r == h
  {
    if h.editBlockIndex < |h.editBlocksPersisted| - 1 then
      var index := h.editBlockIndex + 1;
      HistoryState(h.editBlocksPersisted[index].contentSnapshot, h.editBlocksPersisted, index)
    else h
  }

  /** Undo then redo gives back the content seen before the undo, whether the edit was pending or persisted. */
  lemma UndoThenRedoRestoresContent(h: HistoryState)
    requires HistoryValid(h)
    requires h.editBlockIndex > 0
    requires IsPending(h) || h.content == h.editBlocksPersisted[h.editBlockIndex].contentSnapshot
    ensures AfterRedo(AfterUndo(h)).content == h.content
    ensures AfterRedo(AfterUndo(h)).editBlockIndex == h.editBlockIndex
  {
    var u := AfterUndo(h);
    assert u.editBlockIndex < |u.editBlocksPersisted| - 1;
  }

  /** Redo then undo is no change at all when the content matches the current block. */
  lemma RedoThenUndoIsIdentity(h: HistoryState)
    requires HistoryValid(h)
    requires h.editBlockIndex < |h.editBlocksPersisted| - 1
    requires h.content == h.editBlocksPersisted[h.editBlockIndex].contentSnapshot
    ensures AfterUndo(AfterRedo(h)) == h
  {
    var r := AfterRedo(h);
    assert !IsPending(r);
  }

  // ---------------------------------------------------------------------------
  // The buffer object

  class TextEditorBase {
    var content: seq<RichCharacter>
    var rowEndingPositions: seq<RowEnding>
    var tabKeyPositions: seq<int>
    var editBlocksPersisted: seq<EditBlock>
    var editBlockIndex: int

    function History(): HistoryState
      reads this
    {
      HistoryState(content, editBlocksPersisted, editBlockIndex)
    }

    ghost predicate Valid()
      reads this
    {
      HistoryValid(History())
    }

    /** Paints every span in order; a later span overwrites an earlier one where they overlap. */
    method ApplyDecorationRange(textEditorTextSpans: seq<TextEditorTextSpan>)
      requires forall span :: span in textEditorTextSpans ==> SpanFits(span, |content|)
      modifies this`content
      ensures content == Painted(old(content), textEditorTextSpans)
    {
      var s := 0;
      while s < |textEditorTextSpans|
        invariant 0 <= s <= |textEditorTextSpans|
        invariant content == Painted(old(content), textEditorTextSpans[..s])
      {
        var textEditorTextSpan := textEditorTextSpans[s];
        assert SpanFits(textEditorTextSpan, |content|);
        ghost var before := content;
        var i := textEditorTextSpan.startingIndexInclusive;
        while i < textEditorTextSpan.endingIndexExclusive
          invariant |content| == |before|
          invariant textEditorTextSpan.startingIndexInclusive <= i
          invariant textEditorTextSpan.startingIndexInclusive < textEditorTextSpan.endingIndexExclusive
                    ==> i <= textEditorTextSpan.endingIndexExclusive
          invariant textEditorTextSpan.endingIndexExclusive <= textEditorTextSpan.startingIndexInclusive
                    ==> i == textEditorTextSpan.startingIndexInclusive
          invariant forall k :: 0 <= k < |content| ==>
                      content[k] == if textEditorTextSpan.startingIndexInclusive <= k < i
                                    then before[k].(decorationByte := textEditorTextSpan.decorationByte)
                                    else before[k]
        {
          content := content[i := content[i].(decorationByte := textEditorTextSpan.decorationByte)];
          i := i + 1;
        }
        assert content == PaintSpan(before, textEditorTextSpan);
        assert textEditorTextSpans[..s + 1][..s] == textEditorTextSpans[..s];
        s := s + 1;
      }
      assert textEditorTextSpans[..|textEditorTextSpans|] == textEditorTextSpans;
    }

    /**
     * EnsureUndoPoint as UndoEdit calls it, with ForcePersistEditBlock: the
     * pending block is persisted as a snapshot of the content.
     */
    method EnsureUndoPointForcePersist()
      requires Valid() && IsPending(History())
      modifies this`editBlocksPersisted, this`editBlockIndex
      ensures editBlocksPersisted == old(editBlocksPersisted) + [EditBlock(ForcePersistEditBlock, content)]
      ensures editBlockIndex == old(editBlockIndex) + 1 == |editBlocksPersisted|
    {
      editBlocksPersisted := editBlocksPersisted + [EditBlock(ForcePersistEditBlock, content)];
      editBlockIndex := editBlockIndex + 1;
    }

    /**
     * Replaces the characters with a snapshot.  The source then rebuilds the
     * row endings and tab positions from it; that rebuild is not modelled, so
     * the contract leaves them open.
     */
    method SetContent(contentSnapshot: seq<RichCharacter>)
      modifies this`content, this`rowEndingPositions, this`tabKeyPositions
      ensures content == contentSnapshot
    {
      content := contentSnapshot;
    }

    method ClearEditBlocks()
      modifies this`editBlocksPersisted, this`editBlockIndex
      ensures Valid()
      ensures editBlockIndex == 0 && editBlocksPersisted == []
    {
      editBlockIndex := 0;
      editBlocksPersisted := [];
    }

    method UndoEdit()
      requires Valid()
      modifies this`content, this`rowEndingPositions, this`tabKeyPositions, this`editBlocksPersisted, this`editBlockIndex
      ensures Valid()
      ensures History() == AfterUndo(old(History()))
    {
      if editBlockIndex > 0 {
        if editBlockIndex == |editBlocksPersisted| {
          // a pending edit block is persisted before stepping back past it
          EnsureUndoPointForcePersist();
          editBlockIndex := editBlockIndex - 1;
        }
        editBlockIndex := editBlockIndex - 1;
        var restoreEditBlock := editBlocksPersisted[editBlockIndex];
        SetContent(restoreEditBlock.contentSnapshot);
      }
    }

    method RedoEdit()
      requires Valid()
      modifies this`content, this`rowEndingPositions, this`tabKeyPositions, this`editBlockIndex
      ensures Valid()
      ensures History() == AfterRedo(old(History()))
    {
      if editBlockIndex < |editBlocksPersisted| - 1 {
        editBlockIndex := editBlockIndex + 1;
        var restoreEditBlock := editBlocksPersisted[editBlockIndex];
        SetContent(restoreEditBlock.contentSnapshot);
      }
    }
  }

  // ---------------------------------------------------------------------------
  // Edit requests become keyboard events for the edit engine

  datatype EditOperation = PerformDeletions | PerformInsertions | NoEdit

  /** What the edit engine does with a keyboard event: delete on Backspace/Delete, insert a character, else nothing. */
  function EditOperationOf(e: Keyboard.KeyboardEvent): (operation: EditOperation)
    ensures operation == PerformDeletions <==> e.key == Keyboard.Backspace || e.key == Keyboard.Delete
    ensures operation == PerformInsertions <==> e.key.Character?
    ensures operation == NoEdit <==> Keyboard.IsMetaKey(e.key) && e.key != Keyboard.Backspace && e.key != Keyboard.Delete
  {
    if Keyboard.IsMetaKey(e.key) then
      if e.key == Keyboard.Backspace || e.key == Keyboard.Delete then PerformDeletions else NoEdit
    else PerformInsertions
  }

  datatype MotionKind = Backspace | Delete | UnrecognizedMotionKind(ordinal: int)

  datatype EditError = MotionKindNotRecognized(motionKind: MotionKind)

  /** A delete-by-motion request becomes one BACKSPACE or DELETE key event; any other motion kind is an error. */
  function DeleteByMotionEvent(motionKind: MotionKind): (r: Result<Keyboard.KeyboardEvent, EditError>)
    ensures r.Ok? <==> motionKind.Backspace? || motionKind.Delete?
    ensures r.Err? ==> r.error == MotionKindNotRecognized(motionKind)
    ensures motionKind.Backspace? ==> r.Ok? && r.value.key == Keyboard.Backspace
    ensures motionKind.Delete? ==> r.Ok? && r.value.key == Keyboard.Delete
    ensures r.Ok? ==> EditOperationOf(r.value) == PerformDeletions
  {
    match motionKind
    case Backspace => Ok(Keyboard.KeyboardEvent(Keyboard.Backspace, Keyboard.NoCode, false, false))
    case Delete => Ok(Keyboard.KeyboardEvent(Keyboard.Delete, Keyboard.NoCode, false, false))
    case UnrecognizedMotionKind(_) => Err(MotionKindNotRecognized(motionKind))
  }

  const DeleteKeyEvent := Keyboard.KeyboardEvent(Keyboard.Delete, Keyboard.DeleteCode, false, false)

  /** A delete-by-range request of count characters becomes count DELETE key events (none for count <= 0). */
  method DeleteByRangeEvents(count: int) returns (events: seq<Keyboard.KeyboardEvent>)
    ensures |events| == Max(0, count)
    ensures forall k :: 0 <= k < |events| ==> events[k] == DeleteKeyEvent
    ensures forall k :: 0 <= k < |events| ==> EditOperationOf(events[k]) == PerformDeletions
  {
    events := [];
    var i := 0;
    while i < count
      invariant i == |events| == Min(i, Max(0, count))
      invariant forall k :: 0 <= k < |events| ==> events[k] == DeleteKeyEvent
    {
      events := events + [DeleteKeyEvent];
      i := i + 1;
    }
  }

  /** The key code sent for a character of inserted text. */
  function CodeOf(c: char): (code: Keyboard.Code)
    ensures code.CharacterCode? <==> GetCharacterKind(c) != Whitespace
    ensures code.CharacterCode? ==> code.c == c
    ensures code != Keyboard.NoCode && code != Keyboard.DeleteCode
  {
    match c
    case '\r' => Keyboard.CarriageReturnCode
    case '\n' => Keyboard.EnterCode
    case '\t' => Keyboard.TabCode
    case ' ' => Keyboard.SpaceCode
    case _ => Keyboard.CharacterCode(c)
  }

  /** Inserting text becomes one character key event per character, in order. */
  method InsertTextEvents(text: string) returns (events: seq<Keyboard.KeyboardEvent>)
    ensures |events| == |text|
    ensures forall k :: 0 <= k < |text| ==>
              events[k].key == Keyboard.Character(text[k]) && events[k].code == CodeOf(text[k])
    ensures forall k :: 0 <= k < |text| ==> EditOperationOf(events[k]) == PerformInsertions
  {
    events := [];
    for i := 0 to |text|
      invariant |events| == i
      invariant forall k :: 0 <= k < i ==>
                  events[k] == Keyboard.KeyboardEvent(Keyboard.Character(text[k]), CodeOf(text[k]), false, false)
    {
      events := events + [Keyboard.KeyboardEvent(Keyboard.Character(text[i]), CodeOf(text[i]), false, false)];
    }
  }
}
