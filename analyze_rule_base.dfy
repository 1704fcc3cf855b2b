/** What the four rules share: the shape checks of `AnalyzeRuleBase`, and the
    outcome of one rule as the list of diagnostics it appends. */
module RuleBase {
  import opened Wrappers
  import opened Text
  import opened Syntax
  import opened Diagnostics

  /** The boolean result of a shape check together with its `out` value. */
  datatype Extracted = Extracted(valid: bool, value: string)

  /** A metadata declaration without decorators, with the given identifier and a string value. */
  predicate HasMetadataShape(decl: Declaration, identifierName: string) {
    && decl.MetadataDeclaration?
    && decl.decoratorCount == 0
    && decl.identifierName == identifierName
    && decl.value.StringSyntax?
  }

  /** A target scope declaration without decorators and with a string value. */
  predicate HasTargetScopeShape(decl: Declaration) {
    && decl.TargetScope?
    && decl.decoratorCount == 0
    && decl.value.StringSyntax?
  }

  /** `TryGetLiteralValue() ?? ""`. */
  function LiteralOrEmpty(literal: Option<string>): string {
    if literal.Some? then literal.value else ""
  }

  /** `IsValidMetadataDeclaration`: valid exactly when the declaration is
      `metadata <identifierName> = '<value>'` with no decorators and a non-blank
      literal, which is then the out value. On a wrong shape the out value is "";
      a blank literal is still handed out, with a false result. */
  function IsValidMetadataDeclaration(decl: Declaration, identifierName: string): (r: Extracted)
    ensures r.valid <==>
      decl == MetadataDeclaration(0, identifierName, StringSyntax(Some(r.value)), decl.text) && !IsBlank(r.value)
    ensures HasMetadataShape(decl, identifierName) ==> r.value == LiteralOrEmpty(decl.value.literal)
    ensures !HasMetadataShape(decl, identifierName) ==> !r.valid && r.value == ""
  {
    if !decl.MetadataDeclaration? || decl.decoratorCount > 0
      || decl.identifierName != identifierName || !decl.value.StringSyntax? then
      Extracted(false, "")
    else
      var msgValue := LiteralOrEmpty(decl.value.literal);
      Extracted(!IsBlank(msgValue), msgValue)
  }

  /** `IsValidTargetScopeDeclaration`: valid exactly when the declaration is
      `targetScope = '<value>'` with no decorators and a non-blank literal, which
      is then the out value; on a wrong shape the out value is "". */
  function IsValidTargetScopeDeclaration(decl: Declaration): (r: Extracted)
    ensures r.valid <==>
      decl == TargetScope(0, StringSyntax(Some(r.value)), decl.text) && !IsBlank(r.value)
    ensures HasTargetScopeShape(decl) ==> r.value == LiteralOrEmpty(decl.value.literal)
    ensures !HasTargetScopeShape(decl) ==> !r.valid && r.value == ""
  {
    if !decl.TargetScope? || decl.decoratorCount > 0 || !decl.value.StringSyntax? then
      Extracted(false, "")
    else
      var scopeValue := LiteralOrEmpty(decl.value.literal);
      Extracted(!IsBlank(scopeValue), scopeValue)
  }

  /** The outcome of one rule on one file: it passes, or it fails, with the
      offending value to quote in the message when there is one. */
  datatype Verdict = Pass | Fail(value: Option<string>)

  /** The diagnostics a rule appends for a verdict: none when it passes, otherwise
      exactly one Error from the core linter with the rule's code, its message and the
      offending value; the message is the bare template exactly when there is no
      value to quote. */
  function Findings(code: string, message: string, verdict: Verdict): (ds: seq<Diagnostic>)
    ensures |ds| <= 1
    ensures ds == [] <==> verdict.Pass?
    ensures forall d :: d in ds ==>
      d.level == Error && d.code == code && d.span == Nil && d.source == CoreLinter
      && EndsWith(d.message, message)
    ensures verdict.Fail? ==> (ds[0].message == message <==> IsNullOrWhiteSpace(verdict.value))
    ensures verdict.Fail? ==>
              EmbeddedValue(ds[0].message, message)
              == if IsNullOrWhiteSpace(verdict.value) then None else verdict.value
  {
    if verdict.Pass? then []
    else
      CreateEmbedsValue(Error, code, message, verdict.value);
      [Create(Error, code, message, verdict.value)]
  }
}
