/**
 * The part of a browser keyboard event the editor looks at: the key, the code
 * and the Shift and Ctrl modifiers.  Key names are a datatype instead of the
 * browser's strings ("ArrowLeft", "Backspace", ...).
 */
module Keyboard {
  datatype Key =
    | ArrowLeft | ArrowDown | ArrowUp | ArrowRight | Home | End
    | Backspace | Delete
    | Character(c: char)   // a printable key: the key string is the character itself
    | OtherMetaKey         // any other named key (Escape, F1, ...)

  datatype Code =
    | CarriageReturnCode | EnterCode | TabCode | SpaceCode | DeleteCode
    | CharacterCode(c: char)
    | NoCode

  datatype KeyboardEvent = KeyboardEvent(key: Key, code: Code, shiftKey: bool, ctrlKey: bool)

  /** A meta key is a named key rather than a character to insert. */
  predicate IsMetaKey(key: Key) {
    !key.Character?
  }
}
