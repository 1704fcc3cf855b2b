/** The rule registry: the four rules in registration order, each with an
    `Execute` flag that the allow-list and deny-list operations toggle, and the
    engine that runs the enabled rules against one shared diagnostics list. */
module Registry {
  import opened Wrappers
  import opened Text
  import opened Syntax
  import opened Diagnostics
  import opened RuleBase
  import opened Context
  import AnalyzeRule001
  import AnalyzeRule002
  import AnalyzeRule003
  import AnalyzeRule004

  /** The closed set of rules. */
  datatype RuleKind = Rule001 | Rule002 | Rule003 | Rule004 {
    function Code(): (c: string)
      ensures |c| == 6 && StartsWith(c, "AVM00")
    {
      match this
      case Rule001 => AnalyzeRule001.Code
      case Rule002 => AnalyzeRule002.Code
      case Rule003 => AnalyzeRule003.Code
      case Rule004 => AnalyzeRule004.Code
    }
  }

  /** The diagnostics one rule appends for a declaration sequence. */
  function RuleFindings(rule: RuleKind, declarations: seq<Declaration>, isPlural: string -> bool): (ds: seq<Diagnostic>)
    ensures |ds| <= 1
    ensures forall d :: d in ds ==> d.level == Error && d.code == rule.Code()
  {
    match rule
    case Rule001 => Findings(AnalyzeRule001.Code, AnalyzeRule001.Message, AnalyzeRule001.Verdict(declarations, isPlural))
    case Rule002 => Findings(AnalyzeRule002.Code, AnalyzeRule002.Message, AnalyzeRule002.Verdict(declarations, isPlural))
    case Rule003 => Findings(AnalyzeRule003.Code, AnalyzeRule003.Message, AnalyzeRule003.Verdict(declarations))
    case Rule004 => Findings(AnalyzeRule004.Code, AnalyzeRule004.Message, AnalyzeRule004.Verdict(declarations))
  }

  /** `rule.Rule.Analyze(context)`: the dispatch to the rule's own `Analyze`. */
  method RunRule(rule: RuleKind, context: AnalyzeContext, isPlural: string -> bool)
    modifies context`diagnostics
    ensures context.diagnostics == old(context.diagnostics) + RuleFindings(rule, context.declarations, isPlural)
  {
    match rule
    case Rule001 => AnalyzeRule001.Analyze(context, isPlural);
    case Rule002 => AnalyzeRule002.Analyze(context, isPlural);
    case Rule003 => AnalyzeRule003.Analyze(context);
    case Rule004 => AnalyzeRule004.Analyze(context);
  }

  /** `AnalyzeRuleDefinition`: a rule and whether it runs. */
  datatype AnalyzeRuleDefinition = AnalyzeRuleDefinition(rule: RuleKind, execute: bool)

  const RegisteredRules := [Rule001, Rule002, Rule003, Rule004]
  const RegisteredCodes := ["AVM001", "AVM002", "AVM003", "AVM004"]

  /** The definitions hold the registered rules, in registration order. */
  predicate HoldsRegisteredRules(defs: seq<AnalyzeRuleDefinition>) {
    |defs| == |RegisteredRules| && forall i :: 0 <= i < |defs| ==> defs[i].rule == RegisteredRules[i]
  }

  /** A code is registered exactly when one of the registered definitions has it. */
  lemma RegisteredCode(defs: seq<AnalyzeRuleDefinition>, code: string)
    requires HoldsRegisteredRules(defs)
    ensures code in RegisteredCodes <==> exists j :: 0 <= j < |defs| && defs[j].rule.Code() == code
  {
    assert defs[0].rule.Code() == RegisteredCodes[0];
    assert defs[1].rule.Code() == RegisteredCodes[1];
    assert defs[2].rule.Code() == RegisteredCodes[2];
    assert defs[3].rule.Code() == RegisteredCodes[3];
  }

  /** `after` has the rules of `before`, with the flag of every rule named in
      `codes` set to `execute` and every other flag as in `before`. */
  ghost predicate FlagsAfter(before: seq<AnalyzeRuleDefinition>, after: seq<AnalyzeRuleDefinition>, codes: seq<string>, execute: bool) {
    && |after| == |before|
    && (forall i :: 0 <= i < |after| ==> after[i].rule == before[i].rule)
    && (forall i :: 0 <= i < |after| ==>
          after[i].execute == if after[i].rule.Code() in codes then execute else before[i].execute)
  }

  /** No two registered rules share a code. */
  lemma DistinctCodes(defs: seq<AnalyzeRuleDefinition>, i: nat, j: nat)
    requires HoldsRegisteredRules(defs)
    requires i < |defs| && j < |defs| && defs[i].rule.Code() == defs[j].rule.Code()
    ensures i == j
  {
    assert defs[i].rule == RegisteredRules[i] && defs[j].rule == RegisteredRules[j];
    assert defs[i].rule.Code()[5] == defs[j].rule.Code()[5];
  }

  /** The first n + 1 items are the first n followed by item n. */
  lemma TakeStep<T>(s: seq<T>, n: nat)
    requires n < |s|
    ensures s[..n + 1] == s[..n] + [s[n]]
  {
  }

  /** Appending `b` then `c` is appending `b + c`. */
  lemma AppendAssoc<T>(a: seq<T>, b: seq<T>, c: seq<T>)
    ensures a + b + c == a + (b + c)
  {
  }

  /** Setting the flags for the codes `xs`, then for the codes `ys`, sets them
      for `xs + ys`. */
  lemma FlagsCompose(
    a: seq<AnalyzeRuleDefinition>, b: seq<AnalyzeRuleDefinition>, c: seq<AnalyzeRuleDefinition>,
    xs: seq<string>, ys: seq<string>, execute: bool)
    requires FlagsAfter(a, b, xs, execute) && FlagsAfter(b, c, ys, execute)
    ensures FlagsAfter(a, c, xs + ys, execute)
  {
  }

  /** What every rule appends for one file. */
  function Outputs(declarations: seq<Declaration>, isPlural: string -> bool): RuleKind -> seq<Diagnostic> {
    rule => RuleFindings(rule, declarations, isPlural)
  }

  /** Every rule appends at most one diagnostic, an Error carrying the rule's code. */
  predicate WellBehaved(run: RuleKind -> seq<Diagnostic>) {
    forall rule: RuleKind :: |run(rule)| <= 1 && forall d :: d in run(rule) ==> d.level == Error && d.code == rule.Code()
  }

  /** The rules of this registry are well behaved on every file. */
  lemma OutputsWellBehaved(declarations: seq<Declaration>, isPlural: string -> bool)
    ensures WellBehaved(Outputs(declarations, isPlural))
  {
    forall rule: RuleKind
      ensures var ds := Outputs(declarations, isPlural)(rule);
        |ds| <= 1 && forall d :: d in ds ==> d.level == Error && d.code == rule.Code()
    {
      assert Outputs(declarations, isPlural)(rule) == RuleFindings(rule, declarations, isPlural);
    }
  }

  /** The diagnostics of the rules a run would execute, where `run` gives what
      each rule appends: those of the enabled definitions, concatenated in the
      definitions' order. */
  function EnabledFindings(defs: seq<AnalyzeRuleDefinition>, run: RuleKind -> seq<Diagnostic>): seq<Diagnostic> {
    if |defs| == 0 then []
    else EnabledFindings(defs[..|defs| - 1], run) + StepFindings(defs[|defs| - 1], run)
  }

  /** What one definition contributes to a run. */
  function StepFindings(def: AnalyzeRuleDefinition, run: RuleKind -> seq<Diagnostic>): seq<Diagnostic> {
    if def.execute then run(def.rule) else []
  }

  /** A run of well-behaved rules yields at most one diagnostic per enabled rule,
      every one of them an Error carrying the code of an enabled rule. */
  lemma {:induction false} EnabledFindingsBound(defs: seq<AnalyzeRuleDefinition>, run: RuleKind -> seq<Diagnostic>)
    requires WellBehaved(run)
    ensures |EnabledFindings(defs, run)| <= ActiveCount(defs)
    ensures forall d :: d in EnabledFindings(defs, run) ==> d.level == Error && d.code in EnabledCodes(defs)
  {
    if |defs| > 0 {
      var front := defs[..|defs| - 1];
      var last := defs[|defs| - 1];
      EnabledFindingsBound(front, run);
      var a := EnabledFindings(front, run);
      var b := StepFindings(last, run);
      assert EnabledCodes(defs) == EnabledCodes(front) + (if last.execute then [last.rule.Code()] else []);
      forall d: Diagnostic | d in a + b ensures d.level == Error && d.code in EnabledCodes(defs) {
        if d in a {} else { assert d in run(last.rule); }
      }
    }
  }

  /** Running the first n + 1 definitions is running the first n, then definition n. */
  lemma {:induction false} EnabledFindingsStep(defs: seq<AnalyzeRuleDefinition>, n: nat, run: RuleKind -> seq<Diagnostic>)
    requires n < |defs|
    ensures EnabledFindings(defs[..n + 1], run) == EnabledFindings(defs[..n], run) + StepFindings(defs[n], run)
  {
    assert defs[..n + 1][..n] == defs[..n];
  }

  /** `_rules.Count(x => x.Execute)`. */
  function ActiveCount(defs: seq<AnalyzeRuleDefinition>): (n: nat)
    ensures n <= |defs|
    ensures n == 0 <==> forall i :: 0 <= i < |defs| ==> !defs[i].execute
    ensures n == |defs| <==> forall i :: 0 <= i < |defs| ==> defs[i].execute
    ensures n == |EnabledCodes(defs)|
  {
    if |defs| == 0 then 0
    else ActiveCount(defs[..|defs| - 1]) + (if defs[|defs| - 1].execute then 1 else 0)
  }

  /** The codes of the enabled definitions, in order. */
  function EnabledCodes(defs: seq<AnalyzeRuleDefinition>): (codes: seq<string>)
    ensures forall c :: c in codes <==> exists i :: 0 <= i < |defs| && defs[i].execute && defs[i].rule.Code() == c
  {
    if |defs| == 0 then []
    else
      var front := defs[..|defs| - 1];
      var last := defs[|defs| - 1];
      assert forall i :: 0 <= i < |front| ==> front[i] == defs[i];
      EnabledCodes(front) + (if last.execute then [last.rule.Code()] else [])
  }

  /** `_rules.FirstOrDefault(v => v.Rule.Code == code)`, as an index. */
  function FindRule(defs: seq<AnalyzeRuleDefinition>, code: string): (r: Option<nat>)
    ensures r.Some? ==> r.value < |defs| && defs[r.value].rule.Code() == code
    ensures r.Some? ==> forall j :: 0 <= j < r.value ==> defs[j].rule.Code() != code
    ensures r.None? <==> forall j :: 0 <= j < |defs| ==> defs[j].rule.Code() != code
  {
    if |defs| == 0 then None
    else if defs[0].rule.Code() == code then Some(0)
    else
      var r := FindRule(defs[1..], code);
      if r.None? then None else Some(r.value + 1)
  }

  /** The codes that name none of the `known` rules, in input order. */
  function UnknownCodes(codes: seq<string>, known: seq<string>): (unknown: seq<string>)
    ensures forall c :: c in unknown <==> c in codes && c !in known
    ensures |unknown| <= |codes|
  {
    if |codes| == 0 then []
    else
      var front := codes[..|codes| - 1];
      var last := codes[|codes| - 1];
      assert codes == front + [last];
      UnknownCodes(front, known) + (if last in known then [] else [last])
  }

  /** The unknown codes keep their input order: those of two lists are those of
      the first followed by those of the second. */
  lemma {:induction false} UnknownCodesAppend(a: seq<string>, b: seq<string>, known: seq<string>)
    ensures UnknownCodes(a + b, known) == UnknownCodes(a, known) + UnknownCodes(b, known)
  {
    if |b| > 0 {
      var front := b[..|b| - 1];
      assert (a + b)[..|a + b| - 1] == a + front;
      UnknownCodesAppend(a, front, known);
    } else {
      assert a + b == a;
    }
  }

  /** `$"'{v}'"` for every code. */
  function Quoted(codes: seq<string>): (quoted: seq<string>)
    ensures |quoted| == |codes|
    ensures forall i :: 0 <= i < |codes| ==> quoted[i] == "'" + codes[i] + "'"
  {
    if |codes| == 0 then [] else ["'" + codes[0] + "'"] + Quoted(codes[1..])
  }

  /** The string the setters return: the codes not among `known`, quoted and
      joined by commas. */
  function InvalidRulesMessage(codes: seq<string>, known: seq<string>): string {
    Join(Quoted(UnknownCodes(codes, known)), ",")
  }

  /** A join of items starts with the first item. */
  lemma {:induction false} JoinStartsWithFirst(items: seq<string>, sep: string)
    requires |items| > 0
    ensures StartsWith(Join(items, sep), items[0])
  {
    if |items| > 1 {
      assert Join(items, sep) == items[0] + (sep + Join(items[1..], sep));
    }
  }

  /** The returned string is blank (indeed empty) exactly when every code is known. */
  lemma InvalidRulesMessageBlankIff(codes: seq<string>, known: seq<string>)
    ensures IsBlank(InvalidRulesMessage(codes, known)) <==> forall c :: c in codes ==> c in known
    ensures InvalidRulesMessage(codes, known) == "" <==> forall c :: c in codes ==> c in known
  {
    var unknown := UnknownCodes(codes, known);
    var quoted := Quoted(unknown);
    if |unknown| > 0 {
      assert unknown[0] in unknown;
      JoinStartsWithFirst(quoted, ",");
      var m := InvalidRulesMessage(codes, known);
      assert m[0] == quoted[0][0] == '\'';
      assert !IsWhiteSpace(m[0]);
    }
  }

  /** `AnalyzeRules`: the registry object. */
  class AnalyzeRules {
    var rules: seq<AnalyzeRuleDefinition>

    /** Toggling never adds, removes or reorders rules. */
    ghost predicate Valid()
      reads this
    {
      HoldsRegisteredRules(rules)
    }

    /** Every rule is registered with `Execute = true`. */
    constructor ()
      ensures Valid()
      ensures forall i :: 0 <= i < |rules| ==> rules[i].execute
      ensures ActiveRulesCount() == TotalRulesCount() == 4
    {
      rules := [
        AnalyzeRuleDefinition(Rule001, true),
        AnalyzeRuleDefinition(Rule002, true),
        AnalyzeRuleDefinition(Rule003, true),
        AnalyzeRuleDefinition(Rule004, true)
      ];
    }

    /** `TotalRulesCount`. */
    function TotalRulesCount(): (n: nat)
      reads this
      ensures Valid() ==> n == 4
    {
      |rules|
    }

    /** `ActiveRulesCount`: the number of enabled definitions. */
    function ActiveRulesCount(): (n: nat)
      reads this
      ensures n <= TotalRulesCount()
      ensures n == 0 <==> forall i :: 0 <= i < |rules| ==> !rules[i].execute
      ensures n == TotalRulesCount() <==> forall i :: 0 <= i < |rules| ==> rules[i].execute
    {
      ActiveCount(rules)
    }

    /** `SetExecuteForSpecificRules`: sets the flag of every named known rule to
        `execute`, leaves the others alone, and reports the unknown codes. */
    method SetExecuteForSpecificRules(codes: seq<string>, execute: bool) returns (invalid: string)
      requires Valid()
      modifies this
      ensures Valid()
      ensures forall i :: 0 <= i < |rules| ==>
                rules[i].execute == if rules[i].rule.Code() in codes then execute else old(rules[i].execute)
      ensures invalid == InvalidRulesMessage(codes, RegisteredCodes)
    {
      var invalidRules: seq<string> := [];
      var n := 0;
      while n < |codes|
        invariant n <= |codes|
        invariant Valid()
        invariant FlagsAfter(old(rules), rules, codes[..n], execute)
        invariant invalidRules == UnknownCodes(codes[..n], RegisteredCodes)
      {
        var rule := codes[n];
        ghost var before := rules;
        var found := SetRuleFlag(rule, execute);
        if !found {
          invalidRules := invalidRules + [rule];
        }
        FlagsCompose(old(rules), before, rules, codes[..n], [rule], execute);
        UnknownCodesAppend(codes[..n], [rule], RegisteredCodes);
        UnknownCodesOne(rule, RegisteredCodes);
        TakeStep(codes, n);
        n := n + 1;
      }
      assert codes[..n] == codes;
      invalid := Join(Quoted(invalidRules), ",");
    }

    /** One pass of the loop in `SetExecuteForSpecificRules`: the definition the
        code names, if any, gets the flag `execute`; `found` says whether there was one. */
    method SetRuleFlag(code: string, execute: bool) returns (found: bool)
      requires Valid()
      modifies this
      ensures Valid()
      ensures found <==> code in RegisteredCodes
      ensures FlagsAfter(old(rules), rules, [code], execute)
    {
      var ruleDefinition := FindRule(rules, code);
      RegisteredCode(rules, code);
      found := ruleDefinition.Some?;
      if found {
        var k := ruleDefinition.value;
        forall i | 0 <= i < |rules| && rules[i].rule.Code() == code ensures i == k {
          DistinctCodes(rules, i, k);
        }
        rules := rules[k := rules[k].(execute := execute)];
      }
    }

    /** `SetOnlyRules`: afterwards a rule is enabled exactly when its code was named. */
    method SetOnlyRules(codes: seq<string>) returns (invalid: string)
      requires Valid()
      modifies this
      ensures Valid()
      ensures forall i :: 0 <= i < |rules| ==> rules[i].execute == (rules[i].rule.Code() in codes)
      ensures invalid == InvalidRulesMessage(codes, RegisteredCodes)
    {
      var n := 0;
      while n < |rules|
        invariant n <= |rules|
        invariant Valid()
        invariant forall i :: 0 <= i < n ==> !rules[i].execute
      {
        rules := rules[n := rules[n].(execute := false)];
        n := n + 1;
      }
      invalid := SetExecuteForSpecificRules(codes, true);
    }

    /** `SetExcludeRules`: disables exactly the named known rules. */
    method SetExcludeRules(codes: seq<string>) returns (invalid: string)
      requires Valid()
      modifies this
      ensures Valid()
      ensures forall i :: 0 <= i < |rules| ==>
                rules[i].execute == (old(rules[i].execute) && rules[i].rule.Code() !in codes)
      ensures invalid == InvalidRulesMessage(codes, RegisteredCodes)
    {
      invalid := SetExecuteForSpecificRules(codes, false);
    }

    /** `Analyze`: runs the enabled rules, each once, in registration order, against
        the shared diagnostics list. */
    method Analyze(context: AnalyzeContext, isPlural: string -> bool)
      requires Valid()
      modifies context`diagnostics
      ensures context.diagnostics
              == old(context.diagnostics) + EnabledFindings(rules, Outputs(context.declarations, isPlural))
    {
      ghost var run := Outputs(context.declarations, isPlural);
      var n := 0;
      while n < |rules|
        invariant n <= |rules|
        invariant context.diagnostics == old(context.diagnostics) + EnabledFindings(rules[..n], run)
      {
        ghost var done := EnabledFindings(rules[..n], run);
        RunDefinition(rules[n], context, isPlural);
        assert context.diagnostics == old(context.diagnostics) + done + StepFindings(rules[n], run);
        EnabledFindingsStep(rules, n, run);
        AppendAssoc(old(context.diagnostics), done, StepFindings(rules[n], run));
        n := n + 1;
      }
      assert rules[..n] == rules;
    }
  }

  /** One pass of the loop in `Analyze`: the definition's rule runs when it is enabled. */
  method RunDefinition(def: AnalyzeRuleDefinition, context: AnalyzeContext, isPlural: string -> bool)
    modifies context`diagnostics
    ensures context.diagnostics
            == old(context.diagnostics) + StepFindings(def, Outputs(context.declarations, isPlural))
  {
    if def.execute {
      RunRule(def.rule, context, isPlural);
      assert Outputs(context.declarations, isPlural)(def.rule) == RuleFindings(def.rule, context.declarations, isPlural);
    }
  }

  /** A run over four definitions is the contributions of each, in order. */
  lemma {:induction false} EnabledFindingsOfFour(defs: seq<AnalyzeRuleDefinition>, run: RuleKind -> seq<Diagnostic>)
    requires |defs| == 4
    ensures EnabledFindings(defs, run)
            == StepFindings(defs[0], run) + StepFindings(defs[1], run) + StepFindings(defs[2], run) + StepFindings(defs[3], run)
  {
    assert defs[..0] == [];
    EnabledFindingsStep(defs, 0, run);
    EnabledFindingsStep(defs, 1, run);
    EnabledFindingsStep(defs, 2, run);
    EnabledFindingsStep(defs, 3, run);
    assert defs[..4] == defs;
  }

  /** For the registered rules, a run yields the findings of 001, 002, 003 and 004,
      each only if enabled, in that order. */
  lemma RegistrationOrder(defs: seq<AnalyzeRuleDefinition>, declarations: seq<Declaration>, isPlural: string -> bool)
    requires HoldsRegisteredRules(defs)
    ensures EnabledFindings(defs, Outputs(declarations, isPlural))
            == (if defs[0].execute then RuleFindings(Rule001, declarations, isPlural) else [])
             + (if defs[1].execute then RuleFindings(Rule002, declarations, isPlural) else [])
             + (if defs[2].execute then RuleFindings(Rule003, declarations, isPlural) else [])
             + (if defs[3].execute then RuleFindings(Rule004, declarations, isPlural) else [])
  {
    var run := Outputs(declarations, isPlural);
    assert defs[0].rule == Rule001 && defs[1].rule == Rule002;
    assert defs[2].rule == Rule003 && defs[3].rule == Rule004;
    EnabledFindingsOfFour(defs, run);
  }

  /** With no rule enabled, a run appends nothing, whatever the rules would do. */
  lemma {:induction false} NoActiveRuleNoFindings(defs: seq<AnalyzeRuleDefinition>, run: RuleKind -> seq<Diagnostic>)
    requires forall i :: 0 <= i < |defs| ==> !defs[i].execute
    ensures EnabledFindings(defs, run) == []
  {
    if |defs| > 0 {
      NoActiveRuleNoFindings(defs[..|defs| - 1], run);
    }
  }

  /** After `SetOnlyRules` with unknown codes only, no rule is active. */
  lemma {:induction false} OnlyUnknownCodesDisableAll(defs: seq<AnalyzeRuleDefinition>, codes: seq<string>)
    requires HoldsRegisteredRules(defs)
    requires forall i :: 0 <= i < |defs| ==> defs[i].execute == (defs[i].rule.Code() in codes)
    requires forall c :: c in codes ==> c !in RegisteredCodes
    ensures ActiveCount(defs) == 0
  {
    forall i | 0 <= i < |defs| ensures !defs[i].execute {
      assert defs[i].rule.Code() in RegisteredCodes;
    }
  }

  /** A single code is reported exactly when it is unknown. */
  lemma UnknownCodesOne(code: string, known: seq<string>)
    ensures UnknownCodes([code], known) == if code in known then [] else [code]
  {
    assert [code][..0] == [];
  }

  /** A single unknown code is reported on its own, in quotes. */
  lemma SingleUnknownCode(code: string, known: seq<string>)
    requires code !in known
    ensures InvalidRulesMessage([code], known) == "'" + code + "'"
  {
    UnknownCodesOne(code, known);
    assert Quoted([code]) == ["'" + code + "'"];
  }

  /** `SetOnlyRules(["AVM999"])` reports the one unknown code, quoted. */
  lemma UnknownCodeReported()
    ensures InvalidRulesMessage(["AVM999"], RegisteredCodes) == "'AVM999'"
  {
    var code := "AVM999";
    assert code !in RegisteredCodes by {
      assert code[5] == '9';
      assert forall i :: 0 <= i < |RegisteredCodes| ==> RegisteredCodes[i][5] != '9';
    }
    SingleUnknownCode(code, RegisteredCodes);
  }

  /** After `SetOnlyRules(["AVM001"])` exactly one rule is active, and a run
      yields exactly what AVM001 yields. */
  lemma {:induction false} OnlyFirstRule(defs: seq<AnalyzeRuleDefinition>, run: RuleKind -> seq<Diagnostic>)
    requires HoldsRegisteredRules(defs)
    requires forall i :: 0 <= i < |defs| ==> defs[i].execute == (defs[i].rule.Code() in ["AVM001"])
    ensures ActiveCount(defs) == 1
    ensures EnabledFindings(defs, run) == run(Rule001)
  {
    assert defs[0].execute && defs[0].rule == Rule001;
    assert !defs[1].execute && !defs[2].execute && !defs[3].execute;
    assert defs[..3][..2] == defs[..2];
    assert defs[..2][..1] == defs[..1];
    assert defs[..1][..0] == [];
    EnabledFindingsOfFour(defs, run);
  }
}
