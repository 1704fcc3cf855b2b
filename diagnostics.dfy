/** Diagnostics as the linter reports them, and `DiagnosticFactory.Create`. */
module Diagnostics {
  import opened Wrappers
  import opened Text

  datatype DiagnosticLevel = Warning | Error

  /** A position in the source text; the rules always report `Nil`. */
  datatype TextSpan = Nil | Span(position: nat, length: nat)

  datatype DiagnosticSource = CoreLinter

  datatype Diagnostic = Diagnostic(
    span: TextSpan,
    level: DiagnosticLevel,
    source: DiagnosticSource,
    code: string,
    message: string)

  const ValuePrefix := "Invalid value: '"
  const ValueSuffix := "'. "

  /** `DiagnosticFactory.Create`: a non-blank offending value is quoted in front of
      the message; a missing or blank one leaves the message as it is. */
  function Create(level: DiagnosticLevel, code: string, message: string, value: Option<string>): (d: Diagnostic)
    ensures d.span == Nil && d.source == CoreLinter
    ensures d.level == level && d.code == code
    ensures EndsWith(d.message, message)
    ensures d.message == message <==> IsNullOrWhiteSpace(value)
    ensures !IsNullOrWhiteSpace(value) ==> StartsWith(d.message, ValuePrefix)
    ensures !IsNullOrWhiteSpace(value) ==> EndsWith(d.message, ValueSuffix + message)
  {
    var text := if !IsNullOrWhiteSpace(value) then ValuePrefix + value.value + ValueSuffix + message else message;
    assert EndsWith(text, message) by {
      assert text[|text| - |message|..] == message;
    }
    assert !IsNullOrWhiteSpace(value) ==> text[|text| - |ValueSuffix + message|..] == ValueSuffix + message;
    assert !IsNullOrWhiteSpace(value) ==> text[..|ValuePrefix|] == ValuePrefix;
    Diagnostic(Nil, level, CoreLinter, code, text)
  }

  /** Reads back the offending value from a message built on `template`: the text
      between the quoted prefix and the template, or `None` if there is none. */
  function EmbeddedValue(message: string, template: string): Option<string> {
    var frame := |ValuePrefix| + |ValueSuffix| + |template|;
    if |message| < frame then None
    else Some(message[|ValuePrefix|..|message| - |ValueSuffix| - |template|])
  }

  /** The message of a created diagnostic determines the offending value: it can be
      read back exactly when it was non-blank, so distinct non-blank values give distinct messages. */
  lemma CreateEmbedsValue(level: DiagnosticLevel, code: string, message: string, value: Option<string>)
    ensures EmbeddedValue(Create(level, code, message, value).message, message)
      == if IsNullOrWhiteSpace(value) then None else value
  {
    var m := Create(level, code, message, value).message;
    if !IsNullOrWhiteSpace(value) {
      assert m == ValuePrefix + value.value + ValueSuffix + message;
      assert m[|ValuePrefix|..|m| - |ValueSuffix| - |message|] == value.value;
    }
  }
}
