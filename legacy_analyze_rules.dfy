/** The earlier registry: a dictionary from rule code to definition, holding three
    inline rules that build their diagnostics with their own `CreateDiagnostic`.
    Its `Analyze` collects the findings into a fresh list, visiting the dictionary
    in an order the model leaves open. */
module Legacy {
  import opened Wrappers
  import opened Text
  import opened Syntax
  import opened Diagnostics
  import opened RuleBase
  import Registry
  import Current001 = AnalyzeRule001

  const Rule001Code := "AVM001"
  const Rule002Code := "AVM002"
  const Rule003Code := "AVM003"
  const Codes := [Rule001Code, Rule002Code, Rule003Code]

  const Rule001Message := "The module name metadata must be specified first and should contain the value with the resource name in plural form. For example, 'Elastic SANs'."
  const Rule002Message := "The module description metadata must be specified second and must contain the value with the resource name in singular form, starting with the phrase 'This module deploys a'. For example, 'This module deploys an Elastic SAN'."
  const Rule003Message := "The module owner is not specified correctly. It must be specified as the third metadata statement with the value \"metadata owner = 'Azure/module-maintainers'\"."
  const RequiredPrefix := "This module deploys a"
  const OwnerText := "metadata owner = 'Azure/module-maintainers'"

  const LegacyValuePrefix := "Invalid Value: '"

  /** `CreateDiagnostic`: like `DiagnosticFactory.Create`, but the quoted value is
      introduced by "Invalid Value" with a capital V. */
  function CreateDiagnostic(level: DiagnosticLevel, code: string, message: string, value: Option<string>): (d: Diagnostic)
    ensures d.span == Nil && d.source == CoreLinter
    ensures d.level == level && d.code == code
    ensures EndsWith(d.message, message)
    ensures d.message == message <==> IsNullOrWhiteSpace(value)
    ensures !IsNullOrWhiteSpace(value) ==> StartsWith(d.message, LegacyValuePrefix)
    ensures !IsNullOrWhiteSpace(value) ==> EndsWith(d.message, ValueSuffix + message)
  {
    var text := if !IsNullOrWhiteSpace(value) then LegacyValuePrefix + value.value + ValueSuffix + message else message;
    assert EndsWith(text, message) by {
      assert text[|text| - |message|..] == message;
    }
    assert !IsNullOrWhiteSpace(value) ==> text[|text| - |ValueSuffix + message|..] == ValueSuffix + message;
    assert !IsNullOrWhiteSpace(value) ==> text[..|LegacyValuePrefix|] == LegacyValuePrefix;
    Diagnostic(Nil, level, CoreLinter, code, text)
  }

  /** The offending value can be read back from a legacy message exactly when it
      was non-blank: "Invalid Value: '" is as long as the current prefix, so the
      same read-back applies. */
  lemma CreateDiagnosticEmbedsValue(level: DiagnosticLevel, code: string, message: string, value: Option<string>)
    ensures EmbeddedValue(CreateDiagnostic(level, code, message, value).message, message)
      == if IsNullOrWhiteSpace(value) then None else value
  {
    var m := CreateDiagnostic(level, code, message, value).message;
    assert |LegacyValuePrefix| == |ValuePrefix|;
    if !IsNullOrWhiteSpace(value) {
      assert m == LegacyValuePrefix + value.value + ValueSuffix + message;
      assert m[|ValuePrefix|..|m| - |ValueSuffix| - |message|] == value.value;
    }
  }

  /** The two factories agree exactly when no value is quoted. */
  lemma CreateDiagnosticMatchesCreateIff(level: DiagnosticLevel, code: string, message: string, value: Option<string>)
    ensures CreateDiagnostic(level, code, message, value) == Create(level, code, message, value)
            <==> IsNullOrWhiteSpace(value)
  {
    if !IsNullOrWhiteSpace(value) {
      var a := CreateDiagnostic(level, code, message, value).message;
      var b := Create(level, code, message, value).message;
      assert a[8] == 'V' && b[8] == 'v';
    }
  }

  /** The diagnostics a legacy rule adds for a verdict: none when it passes, else one
      Error built by `CreateDiagnostic` with the offending value. */
  function LegacyFindings(code: string, message: string, verdict: Verdict): (ds: seq<Diagnostic>)
    ensures |ds| <= 1
    ensures ds == [] <==> verdict.Pass?
    ensures forall d :: d in ds ==>
      d.level == Error && d.code == code && d.span == Nil && d.source == CoreLinter
      && EndsWith(d.message, message)
    ensures verdict.Fail? ==>
              (ds[0].message == message <==> IsNullOrWhiteSpace(verdict.value))
    ensures verdict.Fail? ==>
              EmbeddedValue(ds[0].message, message)
              == if IsNullOrWhiteSpace(verdict.value) then None else verdict.value
  {
    if verdict.Pass? then []
    else
      CreateDiagnosticEmbedsValue(Error, code, message, verdict.value);
      [CreateDiagnostic(Error, code, message, verdict.value)]
  }

  /** A `name` metadata declaration with a string value; decorators are not checked. */
  predicate IsNamedStringMetadata(decl: Declaration, identifierName: string) {
    decl.MetadataDeclaration? && decl.identifierName == identifierName && decl.value.StringSyntax?
  }

  /** What legacy rule 1 decides: the first declaration is `name` metadata with a
      non-blank literal ending in "s". A failure carries the literal when the shape
      was right, blank or not. */
  function Rule001Verdict(declarations: seq<Declaration>): Verdict {
    if |declarations| > 0 && IsNamedStringMetadata(declarations[0], "name") then
      var msgValue := declarations[0].value.literal;
      if !IsNullOrWhiteSpace(msgValue) && EndsWith(msgValue.value, "s") then Pass else Fail(msgValue)
    else Fail(None)
  }

  /** What legacy rule 2 decides: the second declaration is `description` metadata
      with a non-blank literal starting with 'This module deploys a'. */
  function Rule002Verdict(declarations: seq<Declaration>): Verdict {
    if |declarations| > 1 && IsNamedStringMetadata(declarations[1], "description") then
      var msgValue := declarations[1].value.literal;
      if !IsNullOrWhiteSpace(msgValue) && StartsWith(msgValue.value, RequiredPrefix) then Pass else Fail(msgValue)
    else Fail(None)
  }

  /** What legacy rule 3 decides: the third declaration's text is exactly the owner
      statement; a failure carries that text. */
  function Rule003Verdict(declarations: seq<Declaration>): Verdict {
    if |declarations| > 2 then
      if declarations[2].text == OwnerText then Pass else Fail(Some(declarations[2].text))
    else Fail(None)
  }

  /** `AnalyzeRule001`: a step-by-step check, then at most one diagnostic appended. */
  method AnalyzeRule001(declarations: seq<Declaration>, diagnostics: seq<Diagnostic>) returns (result: seq<Diagnostic>)
    ensures result == diagnostics + LegacyFindings(Rule001Code, Rule001Message, Rule001Verdict(declarations))
  {
    var declarationNumber := 0;
    var isValid := false;
    var msgValue: Option<string> := None;
    if |declarations| > declarationNumber {
      var decl := declarations[declarationNumber];
      if decl.MetadataDeclaration? {
        if decl.identifierName == "name" && decl.value.StringSyntax? {
          msgValue := decl.value.literal;
          if !IsNullOrWhiteSpace(msgValue) {
            if EndsWith(msgValue.value, "s") {
              isValid := true;
            }
          }
        }
      }
    }
    assert Rule001Verdict(declarations) == if isValid then Pass else Fail(msgValue);
    result := diagnostics;
    if !isValid {
      result := result + [CreateDiagnostic(Error, Rule001Code, Rule001Message, msgValue)];
    }
  }

  /** `AnalyzeRule002`: a step-by-step check, then at most one diagnostic appended. */
  method AnalyzeRule002(declarations: seq<Declaration>, diagnostics: seq<Diagnostic>) returns (result: seq<Diagnostic>)
    ensures result == diagnostics + LegacyFindings(Rule002Code, Rule002Message, Rule002Verdict(declarations))
  {
    var declarationNumber := 1;
    var isValid := false;
    var msgValue: Option<string> := None;
    if |declarations| > declarationNumber {
      var decl := declarations[declarationNumber];
      if decl.MetadataDeclaration? {
        if decl.identifierName == "description" && decl.value.StringSyntax? {
          msgValue := decl.value.literal;
          if !IsNullOrWhiteSpace(msgValue) {
            if StartsWith(msgValue.value, RequiredPrefix) {
              isValid := true;
            }
          }
        }
      }
    }
    assert Rule002Verdict(declarations) == if isValid then Pass else Fail(msgValue);
    result := diagnostics;
    if !isValid {
      result := result + [CreateDiagnostic(Error, Rule002Code, Rule002Message, msgValue)];
    }
  }

  /** `AnalyzeRule003`: compares the third declaration's text with the owner statement. */
  method AnalyzeRule003(declarations: seq<Declaration>, diagnostics: seq<Diagnostic>) returns (result: seq<Diagnostic>)
    ensures result == diagnostics + LegacyFindings(Rule003Code, Rule003Message, Rule003Verdict(declarations))
  {
    var declarationNumber := 2;
    var isValid := false;
    var msgValue: Option<string> := None;
    if |declarations| > declarationNumber {
      msgValue := Some(declarations[declarationNumber].text);
      if msgValue.value == OwnerText {
        isValid := true;
      }
    }
    result := diagnostics;
    if !isValid {
      result := result + [CreateDiagnostic(Error, Rule003Code, Rule003Message, msgValue)];
    }
  }

  /** Legacy rule 1 passes exactly when the first declaration is `name` metadata,
      with any decorators, whose literal is non-blank and ends with "s". */
  lemma Rule001PassIff(declarations: seq<Declaration>)
    ensures Rule001Verdict(declarations) == Pass <==>
      && |declarations| > 0
      && exists n: nat, v: string ::
           && declarations[0] == MetadataDeclaration(n, "name", StringSyntax(Some(v)), declarations[0].text)
           && !IsBlank(v)
           && EndsWith(v, "s")
  {
    if |declarations| > 0 && Rule001Verdict(declarations) == Pass {
      var v := declarations[0].value.literal.value;
      assert declarations[0] == MetadataDeclaration(declarations[0].decoratorCount, "name", StringSyntax(Some(v)), declarations[0].text);
    }
  }

  /** Unlike the current rule, legacy rule 1 accepts a decorated `name`, and any
      value ending in "s", whatever its plurality. */
  lemma Rule001IgnoresDecorators(declarations: seq<Declaration>, isPlural: string -> bool, n: nat, v: string, text: string)
    requires |declarations| > 0 && n > 0 && !IsBlank(v) && EndsWith(v, "s")
    requires declarations[0] == MetadataDeclaration(n, "name", StringSyntax(Some(v)), text)
    ensures Rule001Verdict(declarations) == Pass
    ensures Current001.Verdict(declarations, isPlural) == Fail(None)
  {
  }

  /** Legacy rule 2 passes exactly when the second declaration is `description`
      metadata whose literal is non-blank and starts with the required phrase; the
      resource name's plurality is not checked. */
  lemma Rule002PassIff(declarations: seq<Declaration>)
    ensures Rule002Verdict(declarations) == Pass <==>
      && |declarations| > 1
      && exists n: nat, v: string ::
           && declarations[1] == MetadataDeclaration(n, "description", StringSyntax(Some(v)), declarations[1].text)
           && !IsBlank(v)
           && StartsWith(v, RequiredPrefix)
  {
    if |declarations| > 1 && Rule002Verdict(declarations) == Pass {
      var v := declarations[1].value.literal.value;
      assert declarations[1] == MetadataDeclaration(declarations[1].decoratorCount, "description", StringSyntax(Some(v)), declarations[1].text);
    }
  }

  /** Legacy rule 3 passes exactly when the third declaration reads as the owner
      statement, and otherwise reports that declaration's text. */
  lemma Rule003PassIff(declarations: seq<Declaration>)
    ensures Rule003Verdict(declarations) == Pass <==> |declarations| > 2 && declarations[2].text == OwnerText
    ensures |declarations| > 2 && declarations[2].text != OwnerText ==>
              Rule003Verdict(declarations) == Fail(Some(declarations[2].text))
    ensures |declarations| <= 2 ==> Rule003Verdict(declarations) == Fail(None)
  {
  }

  /** The three rules the dictionary can hold. */
  datatype RuleAction = Rule001Action | Rule002Action | Rule003Action {
    /** The code of the rule the action runs, the key it is registered under. */
    function Code(): string {
      match this
      case Rule001Action => Rule001Code
      case Rule002Action => Rule002Code
      case Rule003Action => Rule003Code
    }
  }

  /** `AnalyzeRuleDefinition`: whether the rule runs, and the rule. */
  datatype AnalyzeRuleDefinition = AnalyzeRuleDefinition(execute: bool, ruleAction: RuleAction)

  /** What one legacy rule adds for a declaration sequence. */
  function ActionFindings(action: RuleAction, declarations: seq<Declaration>): (ds: seq<Diagnostic>)
    ensures |ds| <= 1
    ensures forall d :: d in ds ==> d.level == Error && d.code == action.Code()
  {
    match action
    case Rule001Action => LegacyFindings(Rule001Code, Rule001Message, Rule001Verdict(declarations))
    case Rule002Action => LegacyFindings(Rule002Code, Rule002Message, Rule002Verdict(declarations))
    case Rule003Action => LegacyFindings(Rule003Code, Rule003Message, Rule003Verdict(declarations))
  }

  /** The dictionary holds exactly the three codes, each bound to its own rule. */
  predicate HoldsLegacyRules(rules: map<string, AnalyzeRuleDefinition>) {
    && rules.Keys == {Rule001Code, Rule002Code, Rule003Code}
    && rules[Rule001Code].ruleAction == Rule001Action
    && rules[Rule002Code].ruleAction == Rule002Action
    && rules[Rule003Code].ruleAction == Rule003Action
  }

  /** What the definition under `code` contributes to a run. */
  function Contribution(rules: map<string, AnalyzeRuleDefinition>, code: string, declarations: seq<Declaration>): seq<Diagnostic>
    requires code in rules
  {
    if rules[code].execute then ActionFindings(rules[code].ruleAction, declarations) else []
  }

  /** The diagnostics of the definitions whose codes are in `visited`, as a bag. */
  function Collected(rules: map<string, AnalyzeRuleDefinition>, visited: set<string>, declarations: seq<Declaration>): multiset<Diagnostic>
    requires HoldsLegacyRules(rules)
  {
    Bag(visited,
      multiset(Contribution(rules, Rule001Code, declarations)),
      multiset(Contribution(rules, Rule002Code, declarations)),
      multiset(Contribution(rules, Rule003Code, declarations)))
  }

  /** The union of the three bags whose codes are in `visited`. */
  function Bag(visited: set<string>, m1: multiset<Diagnostic>, m2: multiset<Diagnostic>, m3: multiset<Diagnostic>): multiset<Diagnostic> {
    (if Rule001Code in visited then m1 else multiset{})
    + (if Rule002Code in visited then m2 else multiset{})
    + (if Rule003Code in visited then m3 else multiset{})
  }

  /** Adding a code not yet visited adds its bag. */
  lemma BagStep(visited: set<string>, code: string, m1: multiset<Diagnostic>, m2: multiset<Diagnostic>, m3: multiset<Diagnostic>)
    requires code in {Rule001Code, Rule002Code, Rule003Code} && code !in visited
    ensures Bag(visited + {code}, m1, m2, m3)
            == Bag(visited, m1, m2, m3) + (if code == Rule001Code then m1 else if code == Rule002Code then m2 else m3)
  {
    assert Rule001Code[5] != Rule002Code[5] && Rule001Code[5] != Rule003Code[5] && Rule002Code[5] != Rule003Code[5];
  }

  /** Visiting one more definition adds its contribution. */
  lemma CollectedStep(rules: map<string, AnalyzeRuleDefinition>, visited: set<string>, code: string, declarations: seq<Declaration>)
    requires HoldsLegacyRules(rules)
    requires code in rules && code !in visited
    ensures Collected(rules, visited + {code}, declarations)
            == Collected(rules, visited, declarations) + multiset(Contribution(rules, code, declarations))
  {
    BagStep(visited, code,
      multiset(Contribution(rules, Rule001Code, declarations)),
      multiset(Contribution(rules, Rule002Code, declarations)),
      multiset(Contribution(rules, Rule003Code, declarations)));
  }

  /** `rule.Value.RuleAction(declarations, diagnostics)`: the call through the delegate. */
  method RunAction(action: RuleAction, declarations: seq<Declaration>, diagnostics: seq<Diagnostic>) returns (result: seq<Diagnostic>)
    ensures result == diagnostics + ActionFindings(action, declarations)
  {
    match action {
      case Rule001Action => result := AnalyzeRule001(declarations, diagnostics);
      case Rule002Action => result := AnalyzeRule002(declarations, diagnostics);
      case Rule003Action => result := AnalyzeRule003(declarations, diagnostics);
    }
  }

  /** `after` has the keys and rules of `before`; the flag under every key named in
      `codes` is `execute` and every other flag is as in `before`. */
  ghost predicate FlagsAfter(before: map<string, AnalyzeRuleDefinition>, after: map<string, AnalyzeRuleDefinition>, codes: seq<string>, execute: bool) {
    && after.Keys == before.Keys
    && (forall code :: code in after ==> after[code].ruleAction == before[code].ruleAction)
    && (forall code :: code in after ==>
          after[code].execute == if code in codes then execute else before[code].execute)
  }

  /** Setting the flags for the codes `xs`, then for the codes `ys`, sets them
      for `xs + ys`. */
  lemma FlagsCompose(
    a: map<string, AnalyzeRuleDefinition>, b: map<string, AnalyzeRuleDefinition>, c: map<string, AnalyzeRuleDefinition>,
    xs: seq<string>, ys: seq<string>, execute: bool)
    requires FlagsAfter(a, b, xs, execute) && FlagsAfter(b, c, ys, execute)
    ensures FlagsAfter(a, c, xs + ys, execute)
  {
  }

  /** The dictionary holds a code exactly when it is one of the three. */
  lemma KnownCode(rules: map<string, AnalyzeRuleDefinition>, code: string)
    requires HoldsLegacyRules(rules)
    ensures code in rules <==> code in Codes
  {
  }

  /** `AnalyzeRules`: the dictionary-based registry. */
  class AnalyzeRules {
    var rules: map<string, AnalyzeRuleDefinition>

    ghost predicate Valid()
      reads this
    {
      HoldsLegacyRules(rules)
    }

    /** All three rules registered, each enabled. */
    constructor ()
      ensures Valid()
      ensures forall code :: code in rules ==> rules[code].execute
    {
      rules := map[
        Rule001Code := AnalyzeRuleDefinition(true, Rule001Action),
        Rule002Code := AnalyzeRuleDefinition(true, Rule002Action),
        Rule003Code := AnalyzeRuleDefinition(true, Rule003Action)
      ];
    }

    /** `ActiveRulesCount`: how many definitions are enabled; at most three, none
        exactly when every rule is off, three exactly when every rule is on. */
    function ActiveRulesCount(): (n: nat)
      reads this
      requires Valid()
      ensures n <= 3
      ensures n == 0 <==> forall code :: code in rules ==> !rules[code].execute
      ensures n == 3 <==> forall code :: code in rules ==> rules[code].execute
    {
      var active := set code | code in rules && rules[code].execute;
      assert Rule001Code != Rule002Code && Rule001Code[5] != Rule003Code[5] && Rule002Code[5] != Rule003Code[5];
      assert |rules.Keys| == 3;
      assert active <= rules.Keys;
      assert |active| <= 3 by { SubsetCardinality(active, rules.Keys); }
      assert (forall code :: code in rules ==> rules[code].execute) ==> active == rules.Keys;
      assert active != rules.Keys ==> |active| < 3 by {
        if active != rules.Keys {
          var x :| x in rules.Keys && x !in active;
          SubsetCardinality(active, rules.Keys - {x});
          assert |rules.Keys - {x}| == 2;
        }
      }
      assert (exists code :: code in rules && rules[code].execute) ==> |active| > 0;
      |active|
    }

    /** `SetExecuteForSpecificRules`: every named code the dictionary holds gets the
        flag `execute`; the rest keep theirs; the unknown codes are reported. */
    method SetExecuteForSpecificRules(codes: seq<string>, execute: bool) returns (invalid: string)
      requires Valid()
      modifies this
      ensures Valid()
      ensures forall code :: code in rules ==>
                rules[code].execute == if code in codes then execute else old(rules[code].execute)
      ensures invalid == Registry.InvalidRulesMessage(codes, Codes)
    {
      var invalidRules: seq<string> := [];
      var n := 0;
      while n < |codes|
        invariant n <= |codes|
        invariant Valid()
        invariant FlagsAfter(old(rules), rules, codes[..n], execute)
        invariant invalidRules == Registry.UnknownCodes(codes[..n], Codes)
      {
        var rule := codes[n];
        ghost var before := rules;
        var found := SetRuleFlag(rule, execute);
        if !found {
          invalidRules := invalidRules + [rule];
        }
        FlagsCompose(old(rules), before, rules, codes[..n], [rule], execute);
        Registry.UnknownCodesAppend(codes[..n], [rule], Codes);
        Registry.UnknownCodesOne(rule, Codes);
        Registry.TakeStep(codes, n);
        n := n + 1;
      }
      assert codes[..n] == codes;
      invalid := Join(Registry.Quoted(invalidRules), ",");
    }

    /** One pass of the loop in `SetExecuteForSpecificRules`: `TryGetValue`, and
        the new flag when the dictionary holds the code. */
    method SetRuleFlag(code: string, execute: bool) returns (found: bool)
      requires Valid()
      modifies this
      ensures Valid()
      ensures found <==> code in Codes
      ensures FlagsAfter(old(rules), rules, [code], execute)
    {
      KnownCode(rules, code);
      found := code in rules;
      if found {
        rules := rules[code := rules[code].(execute := execute)];
      }
    }

    /** `SetOnlyRules`: afterwards a rule is enabled exactly when its code was named. */
    method SetOnlyRules(codes: seq<string>) returns (invalid: string)
      requires Valid()
      modifies this
      ensures Valid()
      ensures forall code :: code in rules ==> rules[code].execute == (code in codes)
      ensures invalid == Registry.InvalidRulesMessage(codes, Codes)
    {
      var pending := rules.Keys;
      while pending != {}
        invariant pending <= rules.Keys
        invariant Valid()
        invariant forall code :: code in rules && code !in pending ==> !rules[code].execute
        decreases pending
      {
        var code :| code in pending;
        rules := rules[code := rules[code].(execute := false)];
        pending := pending - {code};
      }
      invalid := SetExecuteForSpecificRules(codes, true);
    }

    /** `SetExcludeRules`: disables exactly the named codes the dictionary holds. */
    method SetExcludeRules(codes: seq<string>) returns (invalid: string)
      requires Valid()
      modifies this
      ensures Valid()
      ensures forall code :: code in rules ==> rules[code].execute == (old(rules[code].execute) && code !in codes)
      ensures invalid == Registry.InvalidRulesMessage(codes, Codes)
    {
      invalid := SetExecuteForSpecificRules(codes, false);
    }

    /** One pass of the `Analyze` loop: the rule under `code` runs when enabled. */
    method RunDefinition(code: string, declarations: seq<Declaration>, diagnostics: seq<Diagnostic>) returns (result: seq<Diagnostic>)
      requires Valid() && code in rules
      ensures result == diagnostics + Contribution(rules, code, declarations)
    {
      result := diagnostics;
      if rules[code].execute {
        result := RunAction(rules[code].ruleAction, declarations, diagnostics);
      }
    }

    /** `Analyze`: a fresh list holding, in some order, the findings of every enabled
        rule and nothing from the disabled ones. */
    method Analyze(declarations: seq<Declaration>) returns (diagnostics: seq<Diagnostic>)
      requires Valid()
      ensures multiset(diagnostics) == Collected(rules, rules.Keys, declarations)
    {
      diagnostics := [];
      var pending := rules.Keys;
      while pending != {}
        invariant pending <= rules.Keys
        invariant multiset(diagnostics) == Collected(rules, rules.Keys - pending, declarations)
        decreases pending
      {
        var code :| code in pending;
        diagnostics := RunDefinition(code, declarations, diagnostics);
        CollectedStep(rules, rules.Keys - pending, code, declarations);
        assert (rules.Keys - pending) + {code} == rules.Keys - (pending - {code});
        pending := pending - {code};
      }
    }
  }

  /** Some element of a non-empty set. */
  ghost function Pick(s: set<string>): string
    requires s != {}
  {
    var x :| x in s; x
  }

  /** A subset has no more elements than its superset. */
  lemma {:induction false} SubsetCardinality(a: set<string>, b: set<string>)
    requires a <= b
    ensures |a| <= |b|
  {
    if a != {} {
      var x := Pick(a);
      SubsetCardinality(a - {x}, b - {x});
    }
  }

  /** Every diagnostic of a run is an Error whose code names an enabled rule; a
      disabled rule contributes nothing. */
  lemma CollectedFromEnabled(rules: map<string, AnalyzeRuleDefinition>, declarations: seq<Declaration>, d: Diagnostic)
    requires HoldsLegacyRules(rules)
    requires d in Collected(rules, rules.Keys, declarations)
    ensures d.level == Error && d.code in rules && rules[d.code].execute
  {
  }
}
