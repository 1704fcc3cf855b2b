/** Rule AVM002: the second declaration is the `description` metadata, without
    decorators; it starts with 'This module deploys a' and its last word is
    singular, as in 'This module deploys an Elastic SAN'. */
module AnalyzeRule002 {
  import opened Wrappers
  import opened Text
  import opened Syntax
  import opened Diagnostics
  import opened RuleBase
  import opened Context

  const Code := "AVM002"
  const Message := "The 'description' metadata in the module should be the second metadata defined (without any decorators) and must start with 'This module deploys a' followed by the name of the resource in singular form. For example 'This module deploys an Elastic SAN'."
  const DeclarationNumber := 1
  const Identifier := "description"
  const RequiredPrefix := "This module deploys a"

  /** `IsValidSingularForm`: the last ' '-separated word is non-blank and not plural. */
  predicate IsValidSingularForm(msgValue: string, isPlural: string -> bool)
    ensures IsValidSingularForm(msgValue, isPlural) ==> !IsBlank(msgValue)
    ensures ' ' !in msgValue ==>
              (IsValidSingularForm(msgValue, isPlural) <==> !IsBlank(msgValue) && !isPlural(msgValue))
  {
    var lastWord := LastWord(msgValue);
    assert !IsBlank(lastWord) ==> !IsBlank(msgValue) by {
      if !IsBlank(lastWord) {
        var i :| 0 <= i < |lastWord| && !IsWhiteSpace(lastWord[i]);
        assert lastWord[i] == msgValue[|msgValue| - |lastWord| + i];
      }
    }
    assert ' ' !in msgValue ==> lastWord == msgValue;
    !IsBlank(lastWord) && !isPlural(lastWord)
  }

  /** What the rule decides for a declaration sequence. */
  function Verdict(declarations: seq<Declaration>, isPlural: string -> bool): Verdict {
    if |declarations| <= DeclarationNumber then Fail(None)
    else
      var r := IsValidMetadataDeclaration(declarations[DeclarationNumber], Identifier);
      if !r.valid then Fail(None)
      else if !StartsWith(r.value, RequiredPrefix) then Fail(Some(r.value))
      else if !IsValidSingularForm(r.value, isPlural) then Fail(Some(r.value))
      else Pass
  }

  method AddDiagnostic(context: AnalyzeContext, msgValue: Option<string>)
    modifies context`diagnostics
    ensures context.diagnostics == old(context.diagnostics) + [Create(Error, Code, Message, msgValue)]
  {
    context.Add(Create(Error, Code, Message, msgValue));
  }

  /** `AnalyzeRule002.Analyze`: appends the rule's findings to the shared list. */
  method Analyze(context: AnalyzeContext, isPlural: string -> bool)
    modifies context`diagnostics
    ensures context.diagnostics
            == old(context.diagnostics) + Findings(Code, Message, Verdict(context.declarations, isPlural))
  {
    if |context.declarations| <= DeclarationNumber {
      AddDiagnostic(context, None);
      return;
    }

    var decl := context.declarations[DeclarationNumber];

    var r := IsValidMetadataDeclaration(decl, Identifier);
    if !r.valid {
      AddDiagnostic(context, None);
      return;
    }

    if !StartsWith(r.value, RequiredPrefix) {
      AddDiagnostic(context, Some(r.value));
      return;
    }

    if !IsValidSingularForm(r.value, isPlural) {
      AddDiagnostic(context, Some(r.value));
    }
  }

  /** The rule passes exactly when the second declaration is
      `metadata description = '<v>'` without decorators, `v` is non-blank, starts
      with the required phrase and its last word is singular. */
  lemma PassIff(declarations: seq<Declaration>, isPlural: string -> bool)
    ensures Verdict(declarations, isPlural) == Pass <==>
      && |declarations| > 1
      && exists v: string ::
           && declarations[1] == MetadataDeclaration(0, Identifier, StringSyntax(Some(v)), declarations[1].text)
           && !IsBlank(v)
           && StartsWith(v, RequiredPrefix)
           && IsValidSingularForm(v, isPlural)
  {
    if |declarations| > 1 && Verdict(declarations, isPlural) == Pass {
      var v := IsValidMetadataDeclaration(declarations[1], Identifier).value;
      assert declarations[1] == MetadataDeclaration(0, Identifier, StringSyntax(Some(v)), declarations[1].text);
    }
  }

  /** A wrong prefix fails with the value before the plurality check is reached:
      the verdict does not depend on the pluralization service at all. */
  lemma WrongPrefixSkipsPlurality(declarations: seq<Declaration>, p1: string -> bool, p2: string -> bool, v: string)
    requires |declarations| > 1
    requires declarations[1] == MetadataDeclaration(0, Identifier, StringSyntax(Some(v)), declarations[1].text)
    requires !IsBlank(v) && !StartsWith(v, RequiredPrefix)
    ensures Verdict(declarations, p1) == Verdict(declarations, p2) == Fail(Some(v))
  {
  }

  /** With the prefix in place, only the last word counts: a description
      'front word' passes exactly when `word` is non-blank and not plural. */
  lemma LastWordDecides(declarations: seq<Declaration>, isPlural: string -> bool, front: string, word: string)
    requires ' ' !in word
    requires StartsWith(front, RequiredPrefix)
    requires |declarations| > 1
    requires declarations[1] == MetadataDeclaration(0, Identifier, StringSyntax(Some(front + " " + word)), declarations[1].text)
    ensures Verdict(declarations, isPlural) == Pass <==> !IsBlank(word) && !isPlural(word)
  {
    var v := front + " " + word;
    LastWordAfterSpace(front, word);
    assert v[..|RequiredPrefix|] == front[..|RequiredPrefix|];
    assert !IsBlank(v) by {
      var i :| 0 <= i < |RequiredPrefix| && !IsWhiteSpace(RequiredPrefix[i]) by {
        assert !IsWhiteSpace(RequiredPrefix[0]);
      }
      assert v[i] == RequiredPrefix[i];
    }
  }

  /** A failure carries a value only when the declaration had the right shape and a
      non-blank literal with the wrong prefix or a plural last word. */
  lemma FailureValue(declarations: seq<Declaration>, isPlural: string -> bool, v: string)
    requires Verdict(declarations, isPlural) == Fail(Some(v))
    ensures |declarations| > 1
    ensures declarations[1] == MetadataDeclaration(0, Identifier, StringSyntax(Some(v)), declarations[1].text)
    ensures !IsBlank(v) && (!StartsWith(v, RequiredPrefix) || !IsValidSingularForm(v, isPlural))
  {
  }

  /** Only the second declaration is inspected. */
  lemma OnlySecondDeclaration(d1: seq<Declaration>, d2: seq<Declaration>, isPlural: string -> bool)
    requires |d1| > 1 && |d2| > 1 && d1[1] == d2[1]
    ensures Verdict(d1, isPlural) == Verdict(d2, isPlural)
  {
  }
}
