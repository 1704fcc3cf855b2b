/** Rule AVM003: the third declaration is the `owner` metadata, without decorators,
    with exactly the value 'Azure/module-maintainers'. */
module AnalyzeRule003 {
  import opened Wrappers
  import opened Text
  import opened Syntax
  import opened Diagnostics
  import opened RuleBase
  import opened Context

  const Code := "AVM003"
  const Message := "The 'owner' metadata in the module should be the third metadata defined (without any decorators) with the value 'Azure/module-maintainers'."
  const DeclarationNumber := 2
  const Identifier := "owner"
  const Owner := "Azure/module-maintainers"

  /** What the rule decides for a declaration sequence. */
  function Verdict(declarations: seq<Declaration>): Verdict {
    if |declarations| <= DeclarationNumber then Fail(None)
    else
      var r := IsValidMetadataDeclaration(declarations[DeclarationNumber], Identifier);
      if !r.valid then Fail(None)
      else if r.value != Owner then Fail(Some(r.value))
      else Pass
  }

  method AddDiagnostic(context: AnalyzeContext, msgValue: Option<string>)
    modifies context`diagnostics
    ensures context.diagnostics == old(context.diagnostics) + [Create(Error, Code, Message, msgValue)]
  {
    context.Add(Create(Error, Code, Message, msgValue));
  }

  /** `AnalyzeRule003.Analyze`: appends the rule's findings to the shared list. */
  method Analyze(context: AnalyzeContext)
    modifies context`diagnostics
    ensures context.diagnostics
            == old(context.diagnostics) + Findings(Code, Message, Verdict(context.declarations))
  {
    if |context.declarations| <= DeclarationNumber {
      AddDiagnostic(context, None);
      return;
    }

    var decl := context.declarations[DeclarationNumber];

    var r := IsValidMetadataDeclaration(decl, Identifier);
    if !r.valid {
      AddDiagnostic(context, None);
      return;
    }

    if r.value != Owner {
      AddDiagnostic(context, Some(r.value));
    }
  }

  /** The rule passes exactly when the third declaration is
      `metadata owner = 'Azure/module-maintainers'` without decorators. */
  lemma PassIff(declarations: seq<Declaration>)
    ensures Verdict(declarations) == Pass <==>
      && |declarations| > 2
      && declarations[2] == MetadataDeclaration(0, Identifier, StringSyntax(Some(Owner)), declarations[2].text)
  {
    if |declarations| > 2 && declarations[2] == MetadataDeclaration(0, Identifier, StringSyntax(Some(Owner)), declarations[2].text) {
      assert !IsWhiteSpace(Owner[0]);
    }
  }

  /** Any other non-blank owner fails with that value attached; the comparison is
      exact, so it is also case-sensitive. */
  lemma OtherOwnerFails(declarations: seq<Declaration>, v: string)
    requires |declarations| > 2
    requires declarations[2] == MetadataDeclaration(0, Identifier, StringSyntax(Some(v)), declarations[2].text)
    requires !IsBlank(v) && v != Owner
    ensures Verdict(declarations) == Fail(Some(v))
  {
  }

  /** A failure that quotes a value comes from an undecorated `owner` metadata third,
      whose literal is that value, non-blank and not the expected owner. */
  lemma FailureValue(declarations: seq<Declaration>, v: string)
    requires Verdict(declarations) == Fail(Some(v))
    ensures |declarations| > 2
    ensures declarations[2] == MetadataDeclaration(0, Identifier, StringSyntax(Some(v)), declarations[2].text)
    ensures !IsBlank(v) && v != Owner
  {
  }

  /** With fewer than three declarations, or a third declaration of the wrong shape
      or with a blank literal, the rule fails without a value. */
  lemma FailureWithoutValue(declarations: seq<Declaration>)
    requires |declarations| <= 2 || !IsValidMetadataDeclaration(declarations[2], Identifier).valid
    ensures Verdict(declarations) == Fail(None)
  {
  }

  /** 'azure/module-maintainers' is rejected, and quoted in the message. */
  lemma LowerCaseOwnerRejected(declarations: seq<Declaration>)
    requires |declarations| > 2
    requires declarations[2] == MetadataDeclaration(0, Identifier, StringSyntax(Some("azure/module-maintainers")), declarations[2].text)
    ensures Verdict(declarations) == Fail(Some("azure/module-maintainers"))
  {
    assert "azure/module-maintainers"[0] != Owner[0];
    assert !IsWhiteSpace("azure/module-maintainers"[0]);
  }

  /** Only the third declaration is inspected. */
  lemma OnlyThirdDeclaration(d1: seq<Declaration>, d2: seq<Declaration>)
    requires |d1| > 2 && |d2| > 2 && d1[2] == d2[2]
    ensures Verdict(d1) == Verdict(d2)
  {
  }
}
