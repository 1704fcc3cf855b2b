/** Rule AVM004: an optional, single `targetScope` that directly follows the
    leading run of metadata declarations, has no decorators and a value naming
    'tenant', 'managementGroup' or 'subscription' ('resourceGroup' is refused). */
module AnalyzeRule004 {
  import opened Wrappers
  import opened Text
  import opened Syntax
  import opened Diagnostics
  import opened RuleBase
  import opened Context

  const Code := "AVM004"
  const Message := "The 'targetScope' can only be used with 'subscription', 'managementGroup', or 'tenant' value. It cannot be used with 'resourceGroup'. When 'targetScope' is specified, it must be the first statement following the metadata section."
  const AllowedValues := ["tenant", "managementGroup", "subscription"]

  /** `declarations.Count(ts => ts is TargetScopeSyntax)`. */
  function TargetScopeCount(declarations: seq<Declaration>): (n: nat)
    ensures n <= |declarations|
    ensures n == 0 <==> forall i :: 0 <= i < |declarations| ==> !declarations[i].TargetScope?
  {
    if |declarations| == 0 then 0
    else (if declarations[0].TargetScope? then 1 else 0) + TargetScopeCount(declarations[1..])
  }

  /** The length of the leading run of metadata declarations. */
  function LeadingMetadataCount(declarations: seq<Declaration>): (k: nat)
    ensures k <= |declarations|
    ensures forall i :: 0 <= i < k ==> declarations[i].MetadataDeclaration?
    ensures k < |declarations| ==> !declarations[k].MetadataDeclaration?
  {
    if |declarations| == 0 || !declarations[0].MetadataDeclaration? then 0
    else 1 + LeadingMetadataCount(declarations[1..])
  }

  /** `allowedValues.Any(targetScopeValue.Contains)`. */
  predicate IsAllowedScope(scopeValue: string) {
    exists allowed :: allowed in AllowedValues && Contains(scopeValue, allowed)
  }

  /** `TryGetTargetScopeAfterMetadata`: finds the declaration right after the leading
      metadata run; it succeeds only when that run is non-empty, does not reach the
      end of the sequence, and is followed by a target scope. */
  method TryGetTargetScopeAfterMetadata(declarations: seq<Declaration>)
    returns (found: bool, targetScope: Option<Declaration>)
    ensures found <==> targetScope.Some?
    ensures found <==>
      var k := LeadingMetadataCount(declarations);
      1 <= k < |declarations| && declarations[k].TargetScope?
    ensures found ==> targetScope.value == declarations[LeadingMetadataCount(declarations)]
  {
    targetScope := None;

    var metadataSectionEndIndex := 0;
    while metadataSectionEndIndex < |declarations|
      invariant metadataSectionEndIndex <= |declarations|
      invariant forall i :: 0 <= i < metadataSectionEndIndex ==> declarations[i].MetadataDeclaration?
    {
      if !declarations[metadataSectionEndIndex].MetadataDeclaration? {
        if metadataSectionEndIndex == 0 {
          return false, None;
        }
        break;
      }
      metadataSectionEndIndex := metadataSectionEndIndex + 1;
    }

    if |declarations| > metadataSectionEndIndex && declarations[metadataSectionEndIndex].TargetScope? {
      targetScope := Some(declarations[metadataSectionEndIndex]);
      return true, targetScope;
    }

    return false, targetScope;
  }

  /** What the rule decides for a declaration sequence. */
  function Verdict(declarations: seq<Declaration>): Verdict {
    var targetScopeCount := TargetScopeCount(declarations);
    if targetScopeCount != 0 && targetScopeCount != 1 then Fail(None)
    else if targetScopeCount == 0 then Pass
    else
      var k := LeadingMetadataCount(declarations);
      if !(1 <= k < |declarations| && declarations[k].TargetScope?) then Fail(None)
      else
        var r := IsValidTargetScopeDeclaration(declarations[k]);
        if !r.valid then Fail(None)
        else if !IsAllowedScope(r.value) then Fail(Some(r.value))
        else Pass
  }

  method AddDiagnostic(context: AnalyzeContext, msgValue: Option<string>)
    modifies context`diagnostics
    ensures context.diagnostics == old(context.diagnostics) + [Create(Error, Code, Message, msgValue)]
  {
    context.Add(Create(Error, Code, Message, msgValue));
  }

  /** `AnalyzeRule004.Analyze`: appends the rule's findings to the shared list. */
  method Analyze(context: AnalyzeContext)
    modifies context`diagnostics
    ensures context.diagnostics
            == old(context.diagnostics) + Findings(Code, Message, Verdict(context.declarations))
  {
    var declarations := context.declarations;

    var targetScopeCount := TargetScopeCount(declarations);
    if targetScopeCount != 0 && targetScopeCount != 1 {
      AddDiagnostic(context, None);
      return;
    }

    if targetScopeCount == 0 {
      return;
    }

    var found, targetScope := TryGetTargetScopeAfterMetadata(declarations);
    if !found {
      AddDiagnostic(context, None);
      return;
    }

    var r := IsValidTargetScopeDeclaration(targetScope.value);
    if !r.valid {
      AddDiagnostic(context, None);
      return;
    }

    if !IsAllowedScope(r.value) {
      assert Verdict(declarations) == Fail(Some(r.value));
      AddDiagnostic(context, Some(r.value));
    } else {
      assert Verdict(declarations) == Pass;
    }
  }

  /** Two target scopes anywhere make the count at least two. */
  lemma {:induction false} TwoTargetScopesCount(declarations: seq<Declaration>, i: nat, j: nat)
    requires i < j < |declarations|
    requires declarations[i].TargetScope? && declarations[j].TargetScope?
    ensures TargetScopeCount(declarations) >= 2
  {
    if i == 0 {
      assert declarations[1..][j - 1] == declarations[j];
    } else {
      assert declarations[1..][i - 1] == declarations[i];
      assert declarations[1..][j - 1] == declarations[j];
      TwoTargetScopesCount(declarations[1..], i - 1, j - 1);
    }
  }

  /** When the count is one, the target scope found at `k` is the only one. */
  lemma {:induction false} SingleTargetScope(declarations: seq<Declaration>, k: nat)
    requires TargetScopeCount(declarations) == 1
    requires k < |declarations| && declarations[k].TargetScope?
    ensures forall j :: 0 <= j < |declarations| && j != k ==> !declarations[j].TargetScope?
  {
    forall j | 0 <= j < |declarations| && j != k
      ensures !declarations[j].TargetScope?
    {
      if declarations[j].TargetScope? {
        if j < k { TwoTargetScopesCount(declarations, j, k); }
        else { TwoTargetScopesCount(declarations, k, j); }
      }
    }
  }

  /** Without any target scope the rule passes: the declaration is optional. */
  lemma NoTargetScopePasses(declarations: seq<Declaration>)
    requires forall i :: 0 <= i < |declarations| ==> !declarations[i].TargetScope?
    ensures Verdict(declarations) == Pass
  {
  }

  /** Two target scopes anywhere fail without a value. */
  lemma SeveralTargetScopesFail(declarations: seq<Declaration>, i: nat, j: nat)
    requires i < j < |declarations|
    requires declarations[i].TargetScope? && declarations[j].TargetScope?
    ensures Verdict(declarations) == Fail(None)
  {
    TwoTargetScopesCount(declarations, i, j);
  }

  /** A single target scope anywhere but right after a non-empty metadata run fails
      without a value. */
  lemma MisplacedTargetScopeFails(declarations: seq<Declaration>, p: nat)
    requires TargetScopeCount(declarations) == 1
    requires p < |declarations| && declarations[p].TargetScope?
    requires p != LeadingMetadataCount(declarations) || p == 0
    ensures Verdict(declarations) == Fail(None)
  {
    SingleTargetScope(declarations, p);
  }

  /** The rule passes exactly when there is no target scope, or there is exactly one,
      it directly follows a non-empty metadata run, it has no decorators, and its
      non-blank literal contains one of the allowed values. */
  lemma PassIff(declarations: seq<Declaration>)
    ensures Verdict(declarations) == Pass <==>
      || (forall i :: 0 <= i < |declarations| ==> !declarations[i].TargetScope?)
      || (&& TargetScopeCount(declarations) == 1
          && var k := LeadingMetadataCount(declarations);
          && 1 <= k < |declarations|
          && exists v: string ::
               && declarations[k] == TargetScope(0, StringSyntax(Some(v)), declarations[k].text)
               && !IsBlank(v)
               && IsAllowedScope(v))
  {
    var k := LeadingMetadataCount(declarations);
    if TargetScopeCount(declarations) == 1 && 1 <= k < |declarations| && declarations[k].TargetScope? {
      var v := IsValidTargetScopeDeclaration(declarations[k]).value;
      if Verdict(declarations) == Pass {
        assert declarations[k] == TargetScope(0, StringSyntax(Some(v)), declarations[k].text);
      }
    }
  }

  /** A failure carries a value only for the one, well-placed, well-formed target
      scope whose literal names none of the allowed values. */
  lemma FailureValue(declarations: seq<Declaration>, v: string)
    requires Verdict(declarations) == Fail(Some(v))
    ensures TargetScopeCount(declarations) == 1
    ensures var k := LeadingMetadataCount(declarations);
      && 1 <= k < |declarations|
      && declarations[k] == TargetScope(0, StringSyntax(Some(v)), declarations[k].text)
    ensures !IsBlank(v) && !IsAllowedScope(v)
  {
    var k := LeadingMetadataCount(declarations);
    var r := IsValidTargetScopeDeclaration(declarations[k]);
    assert r.valid && r.value == v;
  }

  /** 'resourceGroup' names none of the allowed scopes. */
  lemma ResourceGroupNotAllowed()
    ensures !IsAllowedScope("resourceGroup")
  {
    var s := "resourceGroup";
    forall i | 0 <= i <= |s| - |"tenant"| ensures !OccursAt(s, "tenant", i) {
      assert s[i..i + 6][0] == s[i];
      if i == 0 {} else if i == 1 {} else if i == 2 {} else if i == 3 {}
      else if i == 4 {} else if i == 5 {} else if i == 6 {} else {}
    }
    forall i | 0 <= i <= |s| - |"subscription"| ensures !OccursAt(s, "subscription", i) {
      assert s[i..i + 12][0] == s[i];
      if i == 0 {} else {}
    }
    assert !Contains(s, "managementGroup");
  }
}
