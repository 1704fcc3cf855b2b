/** Rule AVM001: the first declaration is the `name` metadata, without decorators,
    and its last word is plural, as in 'Elastic SANs'. The pluralization service is
    the parameter `isPlural`. */
module AnalyzeRule001 {
  import opened Wrappers
  import opened Text
  import opened Syntax
  import opened Diagnostics
  import opened RuleBase
  import opened Context

  const Code := "AVM001"
  const Message := "The 'name' metadata in the module should be the first metadata defined (without any decorators) and must be in plural form, such as 'Elastic SANs'."
  const DeclarationNumber := 0
  const Identifier := "name"

  /** `IsValidPluralForm`: the last ' '-separated word is non-blank and plural. */
  predicate IsValidPluralForm(msgValue: string, isPlural: string -> bool)
    ensures IsValidPluralForm(msgValue, isPlural) ==> !IsBlank(msgValue)
    ensures ' ' !in msgValue ==>
              (IsValidPluralForm(msgValue, isPlural) <==> !IsBlank(msgValue) && isPlural(msgValue))
  {
    var lastWord := LastWord(msgValue);
    assert ' ' !in msgValue ==> lastWord == msgValue;
    assert !IsBlank(lastWord) ==> !IsBlank(msgValue) by {
      if !IsBlank(lastWord) {
        var i :| 0 <= i < |lastWord| && !IsWhiteSpace(lastWord[i]);
        assert lastWord[i] == msgValue[|msgValue| - |lastWord| + i];
      }
    }
    !IsBlank(lastWord) && isPlural(lastWord)
  }

  /** What the rule decides for a declaration sequence. */
  function Verdict(declarations: seq<Declaration>, isPlural: string -> bool): Verdict {
    if |declarations| <= DeclarationNumber then Fail(None)
    else
      var r := IsValidMetadataDeclaration(declarations[DeclarationNumber], Identifier);
      if !r.valid then Fail(None)
      else if !IsValidPluralForm(r.value, isPlural) then Fail(Some(r.value))
      else Pass
  }

  method AddDiagnostic(context: AnalyzeContext, msgValue: Option<string>)
    modifies context`diagnostics
    ensures context.diagnostics == old(context.diagnostics) + [Create(Error, Code, Message, msgValue)]
  {
    context.Add(Create(Error, Code, Message, msgValue));
  }

  /** `AnalyzeRule001.Analyze`: appends the rule's findings to the shared list. */
  method Analyze(context: AnalyzeContext, isPlural: string -> bool)
    modifies context`diagnostics
    ensures context.diagnostics
            == old(context.diagnostics) + Findings(Code, Message, Verdict(context.declarations, isPlural))
  {
    if |context.declarations| <= DeclarationNumber {
      AddDiagnostic(context, None);
      return;
    }

    var decl := context.declarations[DeclarationNumber];

    var r := IsValidMetadataDeclaration(decl, Identifier);
    if !r.valid {
      AddDiagnostic(context, None);
      return;
    }

    if !IsValidPluralForm(r.value, isPlural) {
      AddDiagnostic(context, Some(r.value));
    }
  }

  /** The rule passes exactly when the first declaration is `metadata name = '<v>'`
      without decorators, `v` is non-blank and its last word is plural. */
  lemma PassIff(declarations: seq<Declaration>, isPlural: string -> bool)
    ensures Verdict(declarations, isPlural) == Pass <==>
      && |declarations| > 0
      && exists v: string ::
           && declarations[0] == MetadataDeclaration(0, Identifier, StringSyntax(Some(v)), declarations[0].text)
           && !IsBlank(v)
           && IsValidPluralForm(v, isPlural)
  {
    if |declarations| > 0 && Verdict(declarations, isPlural) == Pass {
      var v := IsValidMetadataDeclaration(declarations[0], Identifier).value;
      assert declarations[0] == MetadataDeclaration(0, Identifier, StringSyntax(Some(v)), declarations[0].text);
    }
  }

  /** Only the last word counts: a name 'front word' passes exactly when `word` is
      non-blank and plural, and otherwise fails carrying the whole name. */
  lemma LastWordDecides(declarations: seq<Declaration>, isPlural: string -> bool, front: string, word: string)
    requires ' ' !in word
    requires |declarations| > 0
    requires declarations[0] == MetadataDeclaration(0, Identifier, StringSyntax(Some(front + " " + word)), declarations[0].text)
    ensures Verdict(declarations, isPlural) == Pass <==> !IsBlank(word) && isPlural(word)
    ensures !IsBlank(word) && !isPlural(word) ==> Verdict(declarations, isPlural) == Fail(Some(front + " " + word))
  {
    var v := front + " " + word;
    LastWordAfterSpace(front, word);
    if !IsBlank(word) {
      var i :| 0 <= i < |word| && !IsWhiteSpace(word[i]);
      assert v[|front| + 1 + i] == word[i];
    } else {
      assert !IsValidPluralForm(v, isPlural);
    }
    assert !IsBlank(v) ==> IsValidMetadataDeclaration(declarations[0], Identifier).valid;
  }

  /** A failure carries a value only when the declaration had the right shape and a
      non-blank literal whose last word is not plural; that literal is the value. */
  lemma FailureValue(declarations: seq<Declaration>, isPlural: string -> bool, v: string)
    requires Verdict(declarations, isPlural) == Fail(Some(v))
    ensures |declarations| > 0
    ensures declarations[0] == MetadataDeclaration(0, Identifier, StringSyntax(Some(v)), declarations[0].text)
    ensures !IsBlank(v) && !IsValidPluralForm(v, isPlural)
  {
  }

  /** With no declarations, or a first declaration of the wrong shape or with a
      blank literal, the rule fails without a value. */
  lemma FailureWithoutValue(declarations: seq<Declaration>, isPlural: string -> bool)
    requires |declarations| == 0 || !IsValidMetadataDeclaration(declarations[0], Identifier).valid
    ensures Verdict(declarations, isPlural) == Fail(None)
  {
  }

  /** Only the first declaration is inspected. */
  lemma OnlyFirstDeclaration(d1: seq<Declaration>, d2: seq<Declaration>, isPlural: string -> bool)
    requires |d1| > 0 && |d2| > 0 && d1[0] == d2[0]
    ensures Verdict(d1, isPlural) == Verdict(d2, isPlural)
  {
  }
}
