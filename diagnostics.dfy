/**
 * The diagnostics a lexer reports, kept in report order.
 */
module Diagnostics {
  import opened Wrappers
  import opened TextBuffer

  datatype DiagnosticLevel = Hint | Suggestion | Warning | Error

  datatype TextEditorDiagnostic = TextEditorDiagnostic(
    diagnosticLevel: DiagnosticLevel,
    message: string,
    textEditorTextSpan: TextEditorTextSpan)

  const EndOfFileUnexpectedMessage: string := "'End of file' was unexpected."

  const UnexpectedTokenPrefix: string := "Unexpected token: "

  /** The message reported for an unexpected token: the token quoted after a fixed prefix. */
  function UnexpectedTokenMessage(unexpectedToken: string): (message: string)
    ensures |message| == |unexpectedToken| + 20
    ensures message[..18] == UnexpectedTokenPrefix
    ensures message[18..] == "'" + unexpectedToken + "'"
  {
    "Unexpected token: '" + unexpectedToken + "'"
  }

  /** Reads the token back out of an unexpected-token message, if the message has that form. */
  function TokenOfUnexpectedTokenMessage(message: string): (token: Option<string>)
    ensures token.Some? ==> |message| == |token.value| + 20 && message[..18] == UnexpectedTokenPrefix
  {
    if |message| >= 20 && message[..18] == UnexpectedTokenPrefix && message[18] == '\'' && message[|message| - 1] == '\''
    then Some(message[19..|message| - 1])
    else None
  }

  /** The token of an unexpected-token message can be read back from it. */
  lemma UnexpectedTokenMessageRoundTrip(unexpectedToken: string)
    ensures TokenOfUnexpectedTokenMessage(UnexpectedTokenMessage(unexpectedToken)) == Some(unexpectedToken)
  {
    var message := UnexpectedTokenMessage(unexpectedToken);
    assert message[18..][0] == message[18];
    assert message[18..][|message| - 19] == message[|message| - 1];
    assert message[19..|message| - 1] == message[18..][1..|message| - 19];
  }

  /** Different tokens are reported with different messages. */
  lemma UnexpectedTokenMessageIsInjective(a: string, b: string)
    requires UnexpectedTokenMessage(a) == UnexpectedTokenMessage(b)
    ensures a == b
  {
    UnexpectedTokenMessageRoundTrip(a);
    UnexpectedTokenMessageRoundTrip(b);
  }

  class TextEditorDiagnosticBag {
    var textEditorDiagnostics: seq<TextEditorDiagnostic>

    constructor ()
      ensures textEditorDiagnostics == []
    {
      textEditorDiagnostics := [];
    }

    /** The diagnostics in the order they were reported. */
    function Enumerate(): (diagnostics: seq<TextEditorDiagnostic>)
      reads this
      ensures diagnostics == textEditorDiagnostics
    {
      textEditorDiagnostics
    }

    /** Appends one diagnostic; the earlier ones stay as they were, in order. */
    method Report(diagnosticLevel: DiagnosticLevel, message: string, textEditorTextSpan: TextEditorTextSpan)
      modifies this
      ensures Enumerate() == old(Enumerate()) + [TextEditorDiagnostic(diagnosticLevel, message, textEditorTextSpan)]
    {
      textEditorDiagnostics := textEditorDiagnostics + [TextEditorDiagnostic(diagnosticLevel, message, textEditorTextSpan)];
    }

    method ReportEndOfFileUnexpected(textEditorTextSpan: TextEditorTextSpan)
      modifies this
      ensures Enumerate() == old(Enumerate()) + [TextEditorDiagnostic(Error, EndOfFileUnexpectedMessage, textEditorTextSpan)]
    {
      Report(Error, EndOfFileUnexpectedMessage, textEditorTextSpan);
    }

    method ReportUnexpectedToken(textEditorTextSpan: TextEditorTextSpan, unexpectedToken: string)
      modifies this
      ensures Enumerate() == old(Enumerate()) + [TextEditorDiagnostic(Error, UnexpectedTokenMessage(unexpectedToken), textEditorTextSpan)]
    {
      Report(Error, UnexpectedTokenMessage(unexpectedToken), textEditorTextSpan);
    }
  }
}
