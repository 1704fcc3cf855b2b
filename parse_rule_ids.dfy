/** `ParseRuleIDs`: turns the tokens of a rule-list command-line argument into
    rule codes, hands them to the registry's allow-list or deny-list setter and
    reports unknown codes on the argument. */
module RuleIdParsing {
  import opened Wrappers
  import opened Text
  import Registry

  /** The part of `System.CommandLine`'s `ArgumentResult` the parser touches: the
      raw token values, and the error message it may set. */
  class ArgumentResult {
    const tokens: seq<string>
    var errorMessage: Option<string>

    constructor (tokens: seq<string>)
      ensures this.tokens == tokens
      ensures errorMessage == None
    {
      this.tokens := tokens;
      errorMessage := None;
    }
  }

  /** The registry setter `ParseAndValidate` is handed: `SetOnlyRules` or `SetExcludeRules`. */
  datatype SetRulesAction = SetOnly | SetExclude

  /** The `Execute` flag a rule ends with, given its flag before and whether the
      setter was given its code. */
  function FlagAfter(action: SetRulesAction, before: bool, named: bool): bool {
    match action
    case SetOnly => named
    case SetExclude => before && !named
  }

  const ErrorPrefix := "One or more specified rules: "
  const ErrorSuffix := " do not exist."

  /** `SelectMany(token => token.Split(','))`: the pieces of every token, in order. */
  function Pieces(tokens: seq<string>): seq<string> {
    if |tokens| == 0 then [] else Split(tokens[0], ',') + Pieces(tokens[1..])
  }

  /** A piece comes from one of the tokens, and holds no comma. */
  lemma {:induction false} PiecesMembers(tokens: seq<string>, p: string)
    ensures p in Pieces(tokens) <==> exists t :: t in tokens && p in Split(t, ',')
    ensures p in Pieces(tokens) ==> ',' !in p
  {
    if |tokens| > 0 {
      PiecesMembers(tokens[1..], p);
      assert Pieces(tokens) == Split(tokens[0], ',') + Pieces(tokens[1..]);
      if p in Pieces(tokens) {
        if p in Split(tokens[0], ',') {
          assert tokens[0] in tokens;
        } else {
          var t :| t in tokens[1..] && p in Split(t, ',');
          assert t in tokens;
        }
      }
      if exists t :: t in tokens && p in Split(t, ',') {
        var t :| t in tokens && p in Split(t, ',');
        if t != tokens[0] {
          assert t in tokens[1..];
        }
      }
    }
  }

  /** `Select(tokenItem => tokenItem.Trim())`. */
  function TrimAll(items: seq<string>): (trimmed: seq<string>)
    ensures |trimmed| == |items|
    ensures forall i :: 0 <= i < |items| ==> trimmed[i] == Trim(items[i])
  {
    if |items| == 0 then [] else [Trim(items[0])] + TrimAll(items[1..])
  }

  /** `Where(tokenItemValue => !string.IsNullOrWhiteSpace(tokenItemValue))`. */
  function WhereNotBlank(items: seq<string>): seq<string> {
    if |items| == 0 then []
    else (if IsBlank(items[0]) then [] else [items[0]]) + WhereNotBlank(items[1..])
  }

  /** The filter keeps exactly the non-blank items. */
  lemma {:induction false} WhereNotBlankMembers(items: seq<string>, x: string)
    ensures x in WhereNotBlank(items) <==> x in items && !IsBlank(x)
  {
    if |items| > 0 {
      WhereNotBlankMembers(items[1..], x);
      assert x in items <==> x == items[0] || x in items[1..];
    }
  }

  /** The rule codes an argument's tokens name: every comma-separated piece of every
      token, trimmed, the blank ones dropped. Each code is non-blank, has no
      white space at either end and no comma, and is the trimmed form of a piece. */
  function RuleIds(tokens: seq<string>): (ids: seq<string>)
    ensures forall id :: id in ids ==> !IsBlank(id) && Trim(id) == id && ',' !in id
    ensures forall id :: id in ids <==> exists p :: p in Pieces(tokens) && !IsBlank(p) && id == Trim(p)
  {
    var pieces := Pieces(tokens);
    var trimmed := TrimAll(pieces);
    var ids := WhereNotBlank(trimmed);
    forall id | id in ids
      ensures !IsBlank(id) && Trim(id) == id && ',' !in id
      ensures exists p :: p in pieces && !IsBlank(p) && id == Trim(p)
    {
      WhereNotBlankMembers(trimmed, id);
      var i :| 0 <= i < |trimmed| && trimmed[i] == id;
      TrimIdempotent(pieces[i]);
      PiecesMembers(tokens, pieces[i]);
    }
    forall p | p in pieces && !IsBlank(p) ensures Trim(p) in ids {
      var i :| 0 <= i < |pieces| && pieces[i] == p;
      assert trimmed[i] == Trim(p);
      WhereNotBlankMembers(trimmed, Trim(p));
    }
    ids
  }

  /** The pipeline keeps token order: the codes of two token lists are the codes of
      the first followed by those of the second. */
  lemma {:induction false} RuleIdsAppend(a: seq<string>, b: seq<string>)
    ensures RuleIds(a + b) == RuleIds(a) + RuleIds(b)
  {
    PiecesAppend(a, b);
    TrimAllAppend(Pieces(a), Pieces(b));
    WhereNotBlankAppend(TrimAll(Pieces(a)), TrimAll(Pieces(b)));
  }

  lemma {:induction false} PiecesAppend(a: seq<string>, b: seq<string>)
    ensures Pieces(a + b) == Pieces(a) + Pieces(b)
  {
    if |a| > 0 {
      assert (a + b)[1..] == a[1..] + b;
      PiecesAppend(a[1..], b);
    } else {
      assert a + b == b;
    }
  }

  lemma {:induction false} TrimAllAppend(a: seq<string>, b: seq<string>)
    ensures TrimAll(a + b) == TrimAll(a) + TrimAll(b)
  {
    if |a| > 0 {
      assert (a + b)[1..] == a[1..] + b;
      TrimAllAppend(a[1..], b);
    } else {
      assert a + b == b;
    }
  }

  lemma {:induction false} WhereNotBlankAppend(a: seq<string>, b: seq<string>)
    ensures WhereNotBlank(a + b) == WhereNotBlank(a) + WhereNotBlank(b)
  {
    if |a| > 0 {
      assert (a + b)[1..] == a[1..] + b;
      WhereNotBlankAppend(a[1..], b);
    } else {
      assert a + b == b;
    }
  }

  /** The filter keeps a list of non-blank items whole. */
  lemma {:induction false} WhereNotBlankKeepsAll(items: seq<string>)
    requires forall x :: x in items ==> !IsBlank(x)
    ensures WhereNotBlank(items) == items
  {
    if |items| > 0 {
      assert items[0] in items;
      assert forall x :: x in items[1..] ==> x in items;
      WhereNotBlankKeepsAll(items[1..]);
      assert items == [items[0]] + items[1..];
    }
  }

  /** Trimming a list of trimmed items changes nothing. */
  lemma TrimAllKeepsTrimmed(items: seq<string>)
    requires forall x :: x in items ==> Trim(x) == x
    ensures TrimAll(items) == items
  {
    assert forall i :: 0 <= i < |items| ==> items[i] in items;
  }

  /** The ids of one token go through its own pieces only. */
  lemma RuleIdsOfOne(token: string)
    ensures RuleIds([token]) == WhereNotBlank(TrimAll(Split(token, ',')))
  {
    assert [token][1..] == [];
    assert Pieces([token]) == Split(token, ',');
  }

  /** Within one token the pipeline keeps the codes in order and keeps duplicates:
      a token that joins trimmed, non-blank, comma-free codes with commas yields
      exactly those codes. */
  lemma RuleIdsOfJoined(codes: seq<string>)
    requires forall c :: c in codes ==> !IsBlank(c) && Trim(c) == c && ',' !in c
    ensures RuleIds([Join(codes, ",")]) == codes
  {
    var token := Join(codes, ",");
    RuleIdsOfOne(token);
    if |codes| == 0 {
      assert Split(token, ',') == [""];
      assert TrimAll([""]) == [""];
      assert WhereNotBlank([""]) == [] by {
        assert [""][1..] == [];
        assert IsBlank("");
      }
    } else {
      SplitJoin(codes, ',');
      TrimAllKeepsTrimmed(codes);
      WhereNotBlankKeepsAll(codes);
    }
  }

  /** A token without commas gives its trimmed self, or nothing when it is blank. */
  lemma SingleCodeToken(t: string)
    requires ',' !in t
    ensures RuleIds([t]) == if IsBlank(t) then [] else [Trim(t)]
  {
    Text.SplitWithoutSeparator(t, ',');
    assert [t][1..] == [];
    assert Pieces([t]) == [t];
    assert TrimAll([t]) == [Trim(t)];
    var r := Trim(t);
    assert IsBlank(r) <==> IsBlank(t) by {
      if r != [] {
        assert !IsWhiteSpace(r[0]);
      }
    }
    assert [r][1..] == [];
    assert WhereNotBlank([r]) == (if IsBlank(r) then [] else [r]) + WhereNotBlank([]);
  }

  /** `ParseRuleIDs`: owns the registry both entry points configure. */
  class ParseRuleIDs {
    const analyzeRules: Registry.AnalyzeRules

    ghost predicate Valid()
      reads this, analyzeRules
    {
      analyzeRules.Valid()
    }

    /** `AnalyzeRules { get; } = new AnalyzeRules()`: a fresh registry, every rule enabled. */
    constructor ()
      ensures Valid()
      ensures fresh(analyzeRules)
      ensures forall i :: 0 <= i < |analyzeRules.rules| ==> analyzeRules.rules[i].execute
    {
      analyzeRules := new Registry.AnalyzeRules();
    }

    /** `ParseOnlyRulesIDs`: `ParseAndValidate` with `SetOnlyRules`. */
    method ParseOnlyRulesIDs(arg: ArgumentResult) returns (ruleIds: seq<string>)
      requires Valid()
      modifies analyzeRules, arg`errorMessage
      ensures Valid()
      ensures ruleIds == RuleIds(arg.tokens)
      ensures forall i :: 0 <= i < |analyzeRules.rules| ==>
                analyzeRules.rules[i].execute == (analyzeRules.rules[i].rule.Code() in ruleIds)
      ensures arg.errorMessage == ErrorMessageAfter(old(arg.errorMessage), ruleIds)
    {
      ruleIds := ParseAndValidate(arg, SetOnly);
    }

    /** `ParseExcludeRulesIDs`: `ParseAndValidate` with `SetExcludeRules`. */
    method ParseExcludeRulesIDs(arg: ArgumentResult) returns (ruleIds: seq<string>)
      requires Valid()
      modifies analyzeRules, arg`errorMessage
      ensures Valid()
      ensures ruleIds == RuleIds(arg.tokens)
      ensures forall i :: 0 <= i < |analyzeRules.rules| ==>
                analyzeRules.rules[i].execute
                == (old(analyzeRules.rules[i].execute) && analyzeRules.rules[i].rule.Code() !in ruleIds)
      ensures arg.errorMessage == ErrorMessageAfter(old(arg.errorMessage), ruleIds)
    {
      ruleIds := ParseAndValidate(arg, SetExclude);
    }

    /** `ParseAndValidate`: parses the codes, calls the setter once on exactly those
        codes, and sets the argument's error message when some code is unknown. */
    method ParseAndValidate(arg: ArgumentResult, setRulesAction: SetRulesAction) returns (ruleIds: seq<string>)
      requires Valid()
      modifies analyzeRules, arg`errorMessage
      ensures Valid()
      ensures ruleIds == RuleIds(arg.tokens)
      ensures forall i :: 0 <= i < |analyzeRules.rules| ==>
                analyzeRules.rules[i].execute
                == FlagAfter(setRulesAction, old(analyzeRules.rules[i].execute), analyzeRules.rules[i].rule.Code() in ruleIds)
      ensures arg.errorMessage == ErrorMessageAfter(old(arg.errorMessage), ruleIds)
    {
      ruleIds := RuleIds(arg.tokens);

      var errorMessage;
      match setRulesAction {
        case SetOnly => errorMessage := analyzeRules.SetOnlyRules(ruleIds);
        case SetExclude => errorMessage := analyzeRules.SetExcludeRules(ruleIds);
      }

      if !IsBlank(errorMessage) {
        arg.errorMessage := Some(ErrorPrefix + errorMessage + ErrorSuffix);
      }
    }
  }

  /** The argument's error message after parsing `ids`: the old one when the
      setter reports nothing, otherwise its report inside the fixed sentence. */
  function ErrorMessageAfter(before: Option<string>, ids: seq<string>): Option<string> {
    var s := Registry.InvalidRulesMessage(ids, Registry.RegisteredCodes);
    if IsBlank(s) then before else Some(ErrorPrefix + s + ErrorSuffix)
  }

  /** The error message is left alone exactly when every code is known; otherwise
      it is the sentence naming the unknown ones. */
  lemma ErrorMessageIff(before: Option<string>, ids: seq<string>)
    ensures (forall id :: id in ids ==> id in Registry.RegisteredCodes) ==> ErrorMessageAfter(before, ids) == before
    ensures (exists id :: id in ids && id !in Registry.RegisteredCodes) ==>
              ErrorMessageAfter(before, ids) == Some(ErrorPrefix + Registry.InvalidRulesMessage(ids, Registry.RegisteredCodes) + ErrorSuffix)
  {
    var s := Registry.InvalidRulesMessage(ids, Registry.RegisteredCodes);
    Registry.InvalidRulesMessageBlankIff(ids, Registry.RegisteredCodes);
  }
}
