# avm-lint rule engine, modelled in Dafny

avm-lint checks Bicep modules of the Azure Verified Modules programme. Each file is parsed into a list of top-level declarations. A set of numbered rules (AVM001 to AVM004) then inspects those declarations and appends Error diagnostics to a shared list. The registry lets a caller choose which rules run. `ParseRuleIDs` provides two argument parsers for rule lists, an allow-list and a deny-list: each splits the argument's tokens into comma-separated rule codes and hands them to the registry. Codes the registry does not know are reported back as an argument error. The command line in `Program.cs` defines only `--source`, `--recursive` and `--filter`, and does not wire these parsers to any option.

This project models:

- the four current rules, one module each (`AnalyzeRule001` … `AnalyzeRule004`), with the shape checks they share (`RuleBase`);
- the diagnostic factory (`Diagnostics`);
- the per-file analyze context (`Context`);
- the current list-based registry (`Registry`);
- the rule-code parser (`RuleIdParsing`);
- the earlier dictionary-based registry with its three inline rules (`Legacy`).

`Text` holds the .NET string operations the code relies on: `IsNullOrWhiteSpace`, `Trim`, `Split`, `String.Join`, `StartsWith`, `EndsWith` and `Contains`. `Scenarios` checks the rules on small concrete files.

How the model is built:

- Each rule has an imperative `Analyze` method that changes the context's `diagnostics`, as the source does. Each such method is proved against a function `Verdict`, which states what the rule decides for a declaration sequence. The lemmas beside it characterise `Verdict`: when the rule passes, which value a failure quotes, and which declarations it reads.
- The registries are classes whose methods toggle the `Execute` flags in place. The `Analyze` methods run the enabled rules and are proved against a specification of the findings they collect.
- The pluralization service is a parameter `isPlural: string -> bool`, so every statement about rules 1 and 2 holds for any pluralizer.

Behaviour of the code worth knowing, which the model follows:

- Rule 2 judges the last space-separated word of the whole description, after the prefix check.
- A file with fewer than three declarations always fails rule 3. It can still pass rule 1 with a single declaration (`Scenarios.LoneNamePasses`), and rule 2 once it has two (`Scenarios.TwoDeclarationsPassRule2`).
- Rule 3 follows the current code: it compares the `owner` literal with `Azure/module-maintainers`. The legacy rule 3 instead compares the declaration's text with the whole `metadata owner = '…'` statement.

## Model

| member | source | states |
|---|---|---|
| Text.Split | avm-lint/ParseRuleIDs.cs:20 | `Split(',')` / `Split(' ')` yields one more piece than there are separators, and no piece contains the separator |
| Text.Join | avm-lint/AnalyzeRules/AnalyzeRules.cs:51 | `string.Join`: the items with the separator between each adjacent pair, the empty string for no items, and the item itself for one (its partners are `JoinSplit` and `SplitJoin`) |
| Text.JoinSplit | avm-lint/ParseRuleIDs.cs:20 | joining the pieces of a split with the separator gives back the original string |
| Text.SplitJoin | avm-lint/ParseRuleIDs.cs:20 | splitting a join of separator-free pieces gives back those pieces, in order and with repeats |
| Text.LastWord | avm-lint/AnalyzeRules/AnalyzeRule001.cs:38 | `Split(' ').LastOrDefault()` is a suffix of the string, contains no space, and is preceded by a space unless it is the whole string |
| Text.LastWordAfterSpace | avm-lint/AnalyzeRules/AnalyzeRule001.cs:38 | for `front + " " + word` with a space-free `word`, the last word is `word`, whatever `front` holds |
| Text.Trim | avm-lint/ParseRuleIDs.cs:21 | `Trim()` is empty exactly for blank strings, otherwise starts and ends with non-white-space, is no longer than its input, and keeps only characters of the input |
| Text.TrimIsWindow | avm-lint/ParseRuleIDs.cs:21 | `Trim()` is a contiguous window of the input with only blank text before and after it, so it removes exactly the white space at the two ends |
| Text.TrimIdempotent | avm-lint/ParseRuleIDs.cs:21 | trimming a trimmed string changes nothing |
| Diagnostics.Create | avm-lint/DiagnosticFactory.cs:6-14 | span `Nil`, source `CoreLinter`, the given level and code; the message ends with the template; it equals the template exactly when the value is null or white space, and otherwise starts with "Invalid value: '" and ends with "'. " followed by the template |
| Diagnostics.CreateEmbedsValue | avm-lint/DiagnosticFactory.cs:8-11 | the offending value can be read back from the message exactly when it was non-blank, so different non-blank values give different messages; a missing or blank value leaves the bare template |
| Context.AnalyzeContext.constructor | avm-lint/AnalyzeRules/AnalyzeContext.cs:4-11 | the three required properties hold the values the caller supplied |
| Context.AnalyzeContext.Add | avm-lint/AnalyzeRules/AnalyzeRule001.cs:44-48 | `Diagnostics.Add` appends exactly one diagnostic at the end and changes nothing else |
| RuleBase.IsValidMetadataDeclaration | avm-lint/AnalyzeRules/AnalyzeRuleBase.cs:5-19 | true exactly for `metadata <id> = '<v>'` without decorators and with a non-blank literal `v`, which is then the out value; on the right shape the out value is the literal or "", and on a wrong shape it is "" |
| RuleBase.IsValidTargetScopeDeclaration | avm-lint/AnalyzeRules/AnalyzeRuleBase.cs:21-34 | true exactly for `targetScope = '<v>'` without decorators and with a non-blank literal, which is then the out value; "" on a wrong shape |
| RuleBase.Findings | avm-lint/AnalyzeRules/AnalyzeRule001.cs:42-48 | a passing rule adds nothing; a failing one adds exactly one Error with source `CoreLinter`, the rule's code, span `Nil` and its message; that message is the bare template exactly when the value is missing or blank, and otherwise the offending value can be read back from it |
| AnalyzeRule001.IsValidPluralForm | avm-lint/AnalyzeRules/AnalyzeRule001.cs:36-40 | only a non-blank value can be valid; for a single word, valid exactly when it is non-blank and plural |
| AnalyzeRule001.AddDiagnostic | avm-lint/AnalyzeRules/AnalyzeRule001.cs:42-49 | appends the one diagnostic `Create(Error, "AVM001", message, value)` |
| AnalyzeRule001.Analyze | avm-lint/AnalyzeRules/AnalyzeRule001.cs:8-34 | the context's diagnostics become the old ones followed by the findings of the rule's verdict on the context's declarations |
| AnalyzeRule001.Verdict | avm-lint/AnalyzeRules/AnalyzeRule001.cs:16-33 | the guard chain as a value: too few declarations or an invalid `name` metadata fail with no value, a literal whose last word is not plural fails quoting it, anything else passes |
| AnalyzeRule001.PassIff | avm-lint/AnalyzeRules/AnalyzeRule001.cs:14-33 | the rule passes exactly when the first declaration is an undecorated `metadata name = '<v>'` with `v` non-blank and plural in its last word |
| AnalyzeRule001.LastWordDecides | avm-lint/AnalyzeRules/AnalyzeRule001.cs:30-40 | for the name `front + " " + word`, the rule passes exactly when `word` is non-blank and plural; a non-blank singular `word` fails with the whole name quoted |
| AnalyzeRule001.FailureValue | avm-lint/AnalyzeRules/AnalyzeRule001.cs:30-33 | a failure quoting `v` means the first declaration was a well-formed `name` metadata with literal `v`, non-blank and not plural |
| AnalyzeRule001.FailureWithoutValue | avm-lint/AnalyzeRules/AnalyzeRule001.cs:16-28 | no declarations, or a first declaration of the wrong shape or with a blank literal, fails without a value |
| AnalyzeRule001.OnlyFirstDeclaration | avm-lint/AnalyzeRules/AnalyzeRule001.cs:14-22 | two non-empty sequences with the same first declaration get the same verdict |
| AnalyzeRule002.IsValidSingularForm | avm-lint/AnalyzeRules/AnalyzeRule002.cs:43-47 | only a non-blank value can be valid; for a single word, valid exactly when it is non-blank and not plural |
| AnalyzeRule002.AddDiagnostic | avm-lint/AnalyzeRules/AnalyzeRule002.cs:49-56 | appends the one diagnostic `Create(Error, "AVM002", message, value)` |
| AnalyzeRule002.Analyze | avm-lint/AnalyzeRules/AnalyzeRule002.cs:8-41 | the context's diagnostics become the old ones followed by the findings of the rule's verdict |
| AnalyzeRule002.Verdict | avm-lint/AnalyzeRules/AnalyzeRule002.cs:17-40 | the guard chain as a value: too few declarations or an invalid `description` metadata fail with no value, a missing prefix and then a last word that is not singular fail quoting the literal, anything else passes |
| AnalyzeRule002.PassIff | avm-lint/AnalyzeRules/AnalyzeRule002.cs:15-40 | the rule passes exactly when the second declaration is an undecorated `metadata description = '<v>'` with `v` non-blank, starting with 'This module deploys a', and singular in its last word |
| AnalyzeRule002.WrongPrefixSkipsPlurality | avm-lint/AnalyzeRules/AnalyzeRule002.cs:31-35 | a description without the prefix fails with its value quoted, whatever the pluralizer says |
| AnalyzeRule002.LastWordDecides | avm-lint/AnalyzeRules/AnalyzeRule002.cs:37-47 | for a prefixed description `front + " " + word`, the rule passes exactly when `word` is non-blank and not plural |
| AnalyzeRule002.FailureValue | avm-lint/AnalyzeRules/AnalyzeRule002.cs:31-40 | a failure quoting `v` means the second declaration was a well-formed `description` with literal `v`, non-blank, and either lacking the prefix or not singular |
| AnalyzeRule002.OnlySecondDeclaration | avm-lint/AnalyzeRules/AnalyzeRule002.cs:15-23 | sequences with the same second declaration get the same verdict |
| AnalyzeRule003.AddDiagnostic | avm-lint/AnalyzeRules/AnalyzeRule003.cs:35-42 | appends the one diagnostic `Create(Error, "AVM003", message, value)` |
| AnalyzeRule003.Analyze | avm-lint/AnalyzeRules/AnalyzeRule003.cs:7-33 | the context's diagnostics become the old ones followed by the findings of the rule's verdict |
| AnalyzeRule003.Verdict | avm-lint/AnalyzeRules/AnalyzeRule003.cs:15-32 | the guard chain as a value: too few declarations or an invalid `owner` metadata fail with no value, any literal other than Azure/module-maintainers fails quoting it, the expected owner passes |
| AnalyzeRule003.PassIff | avm-lint/AnalyzeRules/AnalyzeRule003.cs:13-32 | the rule passes exactly when the third declaration is an undecorated `metadata owner = 'Azure/module-maintainers'` |
| AnalyzeRule003.OtherOwnerFails | avm-lint/AnalyzeRules/AnalyzeRule003.cs:29-32 | a well-formed owner with any other non-blank value fails with that value quoted |
| AnalyzeRule003.FailureValue | avm-lint/AnalyzeRules/AnalyzeRule003.cs:21-32 | a failure that quotes a value comes only from an undecorated `owner` metadata third whose literal is that value, non-blank and not 'Azure/module-maintainers' |
| AnalyzeRule003.FailureWithoutValue | avm-lint/AnalyzeRules/AnalyzeRule003.cs:15-27 | fewer than three declarations, or a third of the wrong shape or with a blank literal, fail with no value |
| AnalyzeRule003.LowerCaseOwnerRejected | avm-lint/AnalyzeRules/AnalyzeRule003.cs:29-32 | the comparison is case-sensitive: 'azure/module-maintainers' fails |
| AnalyzeRule003.OnlyThirdDeclaration | avm-lint/AnalyzeRules/AnalyzeRule003.cs:13-21 | sequences with the same third declaration get the same verdict |
| AnalyzeRule004.TargetScopeCount | avm-lint/AnalyzeRules/AnalyzeRule004.cs:15 | at most the number of declarations, and zero exactly when no declaration is a target scope |
| AnalyzeRule004.LeadingMetadataCount | avm-lint/AnalyzeRules/AnalyzeRule004.cs:52-66 | the length of the leading run of metadata declarations: all before it are metadata, the one at it is not |
| AnalyzeRule004.IsAllowedScope | avm-lint/AnalyzeRules/AnalyzeRule004.cs:40-41 | some allowed value (tenant, managementGroup, subscription) occurs in the scope literal, as the ordinal `Contains` test |
| AnalyzeRule004.TryGetTargetScopeAfterMetadata | avm-lint/AnalyzeRules/AnalyzeRule004.cs:47-76 | finds a scope exactly when the metadata section is non-empty and the declaration right after it is a target scope, and then returns that declaration |
| AnalyzeRule004.AddDiagnostic | avm-lint/AnalyzeRules/AnalyzeRule004.cs:78-85 | appends the one diagnostic `Create(Error, "AVM004", message, value)` |
| AnalyzeRule004.Analyze | avm-lint/AnalyzeRules/AnalyzeRule004.cs:8-45 | the diagnostics become the old ones followed by the findings of the rule's verdict |
| AnalyzeRule004.Verdict | avm-lint/AnalyzeRules/AnalyzeRule004.cs:15-44 | the checks as a value, in the source order: a count other than 0 or 1 fails with no value, none passes, a misplaced or malformed scope fails with no value, a literal containing no allowed value fails quoting it |
| AnalyzeRule004.TwoTargetScopesCount | avm-lint/AnalyzeRules/AnalyzeRule004.cs:15-16 | two target scopes at different positions make the count at least two |
| AnalyzeRule004.SingleTargetScope | avm-lint/AnalyzeRules/AnalyzeRule004.cs:15-20 | with a count of one, the target scope found is the only one |
| AnalyzeRule004.NoTargetScopePasses | avm-lint/AnalyzeRules/AnalyzeRule004.cs:22-25 | a file without target scope passes |
| AnalyzeRule004.SeveralTargetScopesFail | avm-lint/AnalyzeRules/AnalyzeRule004.cs:16-20 | two target scopes fail without a value |
| AnalyzeRule004.MisplacedTargetScopeFails | avm-lint/AnalyzeRules/AnalyzeRule004.cs:27-31 | a single target scope not directly after a non-empty metadata section fails without a value |
| AnalyzeRule004.PassIff | avm-lint/AnalyzeRules/AnalyzeRule004.cs:15-44 | the rule passes exactly when there is no target scope, or exactly one, placed right after a non-empty metadata section, undecorated, with a literal containing 'tenant', 'managementGroup' or 'subscription' |
| AnalyzeRule004.FailureValue | avm-lint/AnalyzeRules/AnalyzeRule004.cs:39-44 | a failure quoting `v` means the only target scope sits right after the metadata, is well formed with literal `v`, and `v` contains no allowed scope |
| AnalyzeRule004.ResourceGroupNotAllowed | avm-lint/AnalyzeRules/AnalyzeRule004.cs:39-44 | 'resourceGroup' contains none of the allowed values |
| Registry.RuleKind.Code | avm-lint/AnalyzeRules/AnalyzeRule001.cs:6 | each rule's own code, "AVM001" to "AVM004" as the four `Code` properties return them: six characters starting with "AVM00" |
| Registry.RuleFindings | avm-lint/AnalyzeRules/AnalyzeRules.cs:60 | one rule adds at most one diagnostic, an Error carrying that rule's code |
| Registry.RunRule | avm-lint/AnalyzeRules/AnalyzeRules.cs:60 | the dispatch appends exactly the findings of the rule that was called |
| Registry.OutputsWellBehaved | avm-lint/AnalyzeRules/AnalyzeRules.cs:60 | every registered rule, on any file, adds at most one diagnostic, an Error with that rule's code |
| Registry.RegisteredCode | avm-lint/AnalyzeRules/AnalyzeRules.cs:11-17 | a code is registered exactly when some registered definition carries it |
| Registry.DistinctCodes | avm-lint/AnalyzeRules/AnalyzeRules.cs:11-17 | no two registered definitions share a code |
| Registry.FindRule | avm-lint/AnalyzeRules/AnalyzeRules.cs:40 | `FirstOrDefault` returns the first definition with the code, and nothing exactly when no definition has it |
| Registry.UnknownCodes | avm-lint/AnalyzeRules/AnalyzeRules.cs:37-49 | the collected invalid codes are exactly the input codes that are not known, and are no more numerous than the input |
| Registry.UnknownCodesAppend | avm-lint/AnalyzeRules/AnalyzeRules.cs:38-49 | invalid codes are collected in input order |
| Registry.Quoted | avm-lint/AnalyzeRules/AnalyzeRules.cs:51 | every code is wrapped in single quotes, one for one |
| Registry.InvalidRulesMessage | avm-lint/AnalyzeRules/AnalyzeRules.cs:37-51 | the unknown codes, each quoted, joined by commas in input order |
| Registry.InvalidRulesMessageBlankIff | avm-lint/AnalyzeRules/AnalyzeRules.cs:35-52 | the returned string is blank, and indeed empty, exactly when every code is known |
| Registry.EnabledFindings | avm-lint/AnalyzeRules/AnalyzeRules.cs:56-62 | the findings of the enabled definitions, concatenated in registration order; a disabled definition contributes nothing (the specification `Analyze` is proved against) |
| Registry.EnabledFindingsBound | avm-lint/AnalyzeRules/AnalyzeRules.cs:54-63 | when each rule adds at most one Error with its own code, a run yields at most one diagnostic per enabled rule, each an Error with an enabled rule's code |
| Registry.EnabledFindingsStep | avm-lint/AnalyzeRules/AnalyzeRules.cs:56-62 | running one more definition appends its contribution after the earlier ones |
| Registry.ActiveCount | avm-lint/AnalyzeRules/AnalyzeRules.cs:66 | the number of enabled definitions, equal to the length of `EnabledCodes`; no more than the rule count; zero exactly when every flag is off; the rule count exactly when every flag is on |
| Registry.EnabledCodes | avm-lint/AnalyzeRules/AnalyzeRules.cs:58 | a code is listed exactly when an enabled definition carries it |
| Registry.AnalyzeRules.constructor | avm-lint/AnalyzeRules/AnalyzeRules.cs:11-17 | the four rules are registered in order, all enabled, so the active count equals the total of four |
| Registry.AnalyzeRules.TotalRulesCount | avm-lint/AnalyzeRules/AnalyzeRules.cs:65 | always four |
| Registry.AnalyzeRules.ActiveRulesCount | avm-lint/AnalyzeRules/AnalyzeRules.cs:66 | at most the total; zero exactly when none is enabled; the total exactly when all are |
| Registry.AnalyzeRules.SetExecuteForSpecificRules | avm-lint/AnalyzeRules/AnalyzeRules.cs:35-52 | a registered rule's flag becomes `execute` if its code was named and stays as it was otherwise; the result is the unknown codes, quoted and comma-joined in input order |
| Registry.AnalyzeRules.SetRuleFlag | avm-lint/AnalyzeRules/AnalyzeRules.cs:40-48 | one loop pass: the code is found exactly when it is registered, and then that rule's flag, and no other, becomes `execute` |
| Registry.AnalyzeRules.SetOnlyRules | avm-lint/AnalyzeRules/AnalyzeRules.cs:19-28 | afterwards a rule is enabled exactly when its code was named; unknown codes are reported |
| Registry.AnalyzeRules.SetExcludeRules | avm-lint/AnalyzeRules/AnalyzeRules.cs:30-33 | afterwards a rule is enabled exactly when it was before and its code was not named; unknown codes are reported |
| Registry.AnalyzeRules.Analyze | avm-lint/AnalyzeRules/AnalyzeRules.cs:54-63 | the context's diagnostics become the old ones followed by the findings of the enabled rules, in registration order |
| Registry.RunDefinition | avm-lint/AnalyzeRules/AnalyzeRules.cs:58-61 | one loop pass of `Analyze` appends the definition's findings when it is enabled and nothing otherwise |
| Registry.EnabledFindingsOfFour | avm-lint/AnalyzeRules/AnalyzeRules.cs:56-62 | a run over four definitions is their four contributions concatenated in order |
| Registry.RegistrationOrder | avm-lint/AnalyzeRules/AnalyzeRules.cs:54-63 | a run yields the findings of AVM001, AVM002, AVM003 and AVM004, each only when enabled, in that order |
| Registry.NoActiveRuleNoFindings | avm-lint/AnalyzeRules/AnalyzeRules.cs:54-63 | with every rule disabled a run adds nothing |
| Registry.OnlyUnknownCodesDisableAll | avm-lint/AnalyzeRules/AnalyzeRules.cs:19-28 | `SetOnlyRules` with unknown codes only leaves no rule active |
| Registry.SingleUnknownCode | avm-lint/AnalyzeRules/AnalyzeRules.cs:35-52 | a single unknown code comes back alone, in single quotes |
| Registry.UnknownCodeReported | avm-lint/AnalyzeRules/AnalyzeRules.cs:35-52 | for the codes ["AVM999"] the setters return "'AVM999'" |
| Registry.OnlyFirstRule | avm-lint/AnalyzeRules/AnalyzeRules.cs:19-28 | after `SetOnlyRules(["AVM001"])` one rule is active and a run yields exactly what AVM001 yields |
| RuleIdParsing.Pieces | avm-lint/ParseRuleIDs.cs:20 | `SelectMany(Split(','))`: the pieces of every token, token after token, empty pieces kept |
| RuleIdParsing.PiecesMembers | avm-lint/ParseRuleIDs.cs:20 | a piece comes from one token, split at commas, and contains no comma |
| RuleIdParsing.TrimAll | avm-lint/ParseRuleIDs.cs:21 | every item is trimmed, one for one |
| RuleIdParsing.WhereNotBlank | avm-lint/ParseRuleIDs.cs:22 | the non-blank items, in their order |
| RuleIdParsing.WhereNotBlankMembers | avm-lint/ParseRuleIDs.cs:22 | the filter keeps exactly the items that are not null or white space |
| RuleIdParsing.RuleIds | avm-lint/ParseRuleIDs.cs:19-23 | every id is non-blank, trimmed and comma-free, and a string is an id exactly when it is the trim of a non-blank comma-separated piece of a token |
| RuleIdParsing.RuleIdsAppend | avm-lint/ParseRuleIDs.cs:19-23 | the ids of two token lists are the ids of the first followed by those of the second, so token order is kept |
| RuleIdParsing.RuleIdsOfJoined | avm-lint/ParseRuleIDs.cs:19-23 | a token that joins trimmed, non-blank, comma-free codes with commas yields exactly those codes, in order and with repeats |
| RuleIdParsing.SingleCodeToken | avm-lint/ParseRuleIDs.cs:19-23 | a comma-free token yields no id if blank, and otherwise its trim |
| RuleIdParsing.ParseRuleIDs.constructor | avm-lint/ParseRuleIDs.cs:5 | the parser owns a fresh registry with every rule enabled |
| RuleIdParsing.ParseRuleIDs.ParseOnlyRulesIDs | avm-lint/ParseRuleIDs.cs:7-10 | returns the parsed ids, enables exactly the rules they name, and sets the error message when some id is unknown |
| RuleIdParsing.ParseRuleIDs.ParseExcludeRulesIDs | avm-lint/ParseRuleIDs.cs:12-15 | returns the parsed ids, disables exactly the rules they name and keeps the rest, and sets the error message when some id is unknown |
| RuleIdParsing.ParseRuleIDs.ParseAndValidate | avm-lint/ParseRuleIDs.cs:17-31 | the parsed ids go to the chosen setter once; the flags are what that setter leaves; the argument's error message is set only when the setter reports something |
| RuleIdParsing.ErrorMessageAfter | avm-lint/ParseRuleIDs.cs:25-28 | the error message after parsing: unchanged when the setter's report is blank, otherwise "One or more specified rules: <report> do not exist." |
| RuleIdParsing.ErrorMessageIff | avm-lint/ParseRuleIDs.cs:25-28 | the error message is untouched exactly when every id is known, and otherwise reads "One or more specified rules: 'X',… do not exist." naming the unknown ids |
| Legacy.CreateDiagnostic | avm-lint/AnalyzeRules.cs:73-80 | same shape as `Create`: a non-blank value gives a message starting with "Invalid Value: '" and ending with "'. " and the template |
| Legacy.CreateDiagnosticEmbedsValue | avm-lint/AnalyzeRules.cs:75-79 | the offending value can be read back from a legacy message exactly when it was non-blank |
| Legacy.CreateDiagnosticMatchesCreateIff | avm-lint/AnalyzeRules.cs:73-80 | the legacy and current factories agree exactly when no value is quoted |
| Legacy.LegacyFindings | avm-lint/AnalyzeRules.cs:111-112 | a passing rule adds nothing; a failing one adds one Error from `CoreLinter` with its code and span `Nil`, whose message is the bare template exactly when the value is null or blank, and from which a non-blank value can be read back |
| Legacy.AnalyzeRule001 | avm-lint/AnalyzeRules.cs:82-113 | the list gains the findings of legacy rule 1's verdict |
| Legacy.AnalyzeRule002 | avm-lint/AnalyzeRules.cs:115-147 | the list gains the findings of legacy rule 2's verdict |
| Legacy.AnalyzeRule003 | avm-lint/AnalyzeRules.cs:149-169 | the list gains the findings of legacy rule 3's verdict |
| Legacy.Rule001Verdict | avm-lint/AnalyzeRules.cs:88-112 | the flag steps as a value: a first `name` string metadata with a non-blank literal ending in "s" passes; with that shape anything else fails quoting the literal, blank or not; any other input fails with no value |
| Legacy.Rule002Verdict | avm-lint/AnalyzeRules.cs:122-146 | the same for a second `description` string metadata whose non-blank literal starts with "This module deploys a" |
| Legacy.Rule003Verdict | avm-lint/AnalyzeRules.cs:156-168 | a third declaration whose text is the owner statement passes, any other third declaration fails quoting its text, and too few declarations fail with no value |
| Legacy.Rule001PassIff | avm-lint/AnalyzeRules.cs:88-112 | legacy rule 1 passes exactly when the first declaration is `name` metadata, with any decorators, whose literal is non-blank and ends with "s" |
| Legacy.Rule001IgnoresDecorators | avm-lint/AnalyzeRules.cs:96-106 | a decorated `name` ending in "s" passes legacy rule 1 and fails the current rule 1 |
| Legacy.Rule002PassIff | avm-lint/AnalyzeRules.cs:122-146 | legacy rule 2 passes exactly when the second declaration is `description` metadata whose literal is non-blank and starts with 'This module deploys a' |
| Legacy.Rule003PassIff | avm-lint/AnalyzeRules.cs:156-168 | legacy rule 3 passes exactly when the third declaration prints as the owner statement; otherwise it quotes that text, or nothing when there is no third declaration |
| Legacy.RuleAction.Code | avm-lint/AnalyzeRules.cs:15-20 | the dictionary key each rule action is registered under |
| Legacy.ActionFindings | avm-lint/AnalyzeRules.cs:64 | one legacy rule adds at most one diagnostic, an Error carrying that rule's code |
| Legacy.CollectedStep | avm-lint/AnalyzeRules.cs:60-66 | visiting one more dictionary entry adds its contribution to the collected bag |
| Legacy.RunAction | avm-lint/AnalyzeRules.cs:64 | the delegate call appends exactly the findings of the rule it holds |
| Legacy.KnownCode | avm-lint/AnalyzeRules.cs:43 | `TryGetValue` succeeds exactly for AVM001, AVM002 and AVM003 |
| Legacy.AnalyzeRules.constructor | avm-lint/AnalyzeRules.cs:15-20 | the dictionary maps the three codes to their rules, all enabled |
| Legacy.AnalyzeRules.ActiveRulesCount | avm-lint/AnalyzeRules.cs:71 | at most three; zero exactly when none is enabled; three exactly when all are |
| Legacy.AnalyzeRules.SetExecuteForSpecificRules | avm-lint/AnalyzeRules.cs:38-54 | a held code's flag becomes `execute` if named and is kept otherwise; the result is the unknown codes, quoted and comma-joined in input order |
| Legacy.AnalyzeRules.SetRuleFlag | avm-lint/AnalyzeRules.cs:43-47 | one loop pass: `TryGetValue` succeeds exactly for a held code, and then the flag under that key, and no other, becomes `execute` |
| Legacy.AnalyzeRules.SetOnlyRules | avm-lint/AnalyzeRules.cs:22-31 | afterwards a rule is enabled exactly when its code was named |
| Legacy.AnalyzeRules.SetExcludeRules | avm-lint/AnalyzeRules.cs:33-36 | afterwards a rule is enabled exactly when it was before and its code was not named |
| Legacy.AnalyzeRules.RunDefinition | avm-lint/AnalyzeRules.cs:62-65 | one loop pass adds the entry's findings when it is enabled and nothing otherwise |
| Legacy.AnalyzeRules.Analyze | avm-lint/AnalyzeRules.cs:56-69 | the fresh list holds, as a bag, exactly the findings of the enabled rules |
| Legacy.CollectedFromEnabled | avm-lint/AnalyzeRules.cs:56-69 | every collected diagnostic is an Error whose code names an enabled rule |
| Scenarios.PluralNamePasses | avm-lint/AnalyzeRules/AnalyzeRule001.cs:8-40 | `metadata name = 'Elastic SANs'` first passes rule 1 when 'SANs' is plural |
| Scenarios.DescriptionPasses | avm-lint/AnalyzeRules/AnalyzeRule002.cs:8-47 | 'This module deploys an Elastic SAN' second passes rule 2 when 'SAN' is singular |
| Scenarios.WellFormedHeaderPasses | avm-lint/AnalyzeRules/AnalyzeRule003.cs:7-33 | a header of name, description and owner passes rules 1, 2 and 3 |
| Scenarios.LoneSingularName | avm-lint/AnalyzeRules/AnalyzeRule001.cs:30-33 | a lone 'Elastic SAN' name fails rule 1 quoting it, and rules 2 and 3 without a value |
| Scenarios.ResourceGroupAfterHeader | avm-lint/AnalyzeRules/AnalyzeRule004.cs:39-44 | `targetScope = 'resourceGroup'` right after the metadata fails rule 4 quoting 'resourceGroup' |
| Scenarios.ShortSequences | avm-lint/AnalyzeRules/AnalyzeRule003.cs:15-19 | fewer than three declarations always fail rule 3 without a value |
| Scenarios.LoneNamePasses | avm-lint/AnalyzeRules/AnalyzeRule001.cs:14-33 | the plural name alone passes rule 1 |
| Scenarios.TwoDeclarationsPassRule2 | avm-lint/AnalyzeRules/AnalyzeRule002.cs:15-40 | name and description alone pass rule 2 when 'SAN' is singular |

## Left out

- The command line (`Program.cs`), the file search (`FilesFinder.cs`), the per-file driver (`Analyzer.cs`), the syntax visitor (`LintVisitor.cs`), `ModuleType` and the interfaces `IAnalyzeRule`, `IAnalyzeRules` and `IAnalyzeContext` are not part of this model. They do I/O, or only declare signatures.
- Bicep parsing is not modelled. A declaration is an abstract value (`Syntax.Declaration`): its kind, its decorator count, its identifier, its value, and its `ToString()` text as the `text` field. `TryGetLiteralValue` is the `literal` option of a string value.
- The pluralization library is not modelled. It is the parameter `isPlural`, so nothing depends on its word lists.
- Strings are sequences of Unicode characters, while .NET uses UTF-16 code units. `StartsWith(string)`, which is culture-sensitive in .NET, is modelled as an ordinal prefix test, and so are `EndsWith` and `Contains`. `char.IsWhiteSpace` is modelled by its list of white-space code points.
- Object identity is not modelled. Rule definitions are values in a sequence, or in the legacy dictionary, and a flag update replaces one element. The rules are `RuleKind` values rather than objects behind an interface.
- Registry.FindRule, Registry.RunRule: the interface `IAnalyzeRule` (IAnalyzeRule.cs:6-7) does not match its implementations, so the code read through it would not type-check as written. The model resolves this in two ways. First, `IAnalyzeRule` declares `Code` as a static property whose value is `""`, while each rule defines `Code` as an instance property returning its own "AVM00n". Read through the interface, every rule's code would be `""` and every argument code would be reported unknown; the model instead gives each definition its rule's own code. Second, the interface declares `Analyze(declarations, diagnostics)`, but rules 001 to 003 implement `Analyze(context)` and the registry calls `Analyze(context)` (AnalyzeRules.cs:60). The model dispatches every rule on the context.
- AnalyzeRule004.Analyze: the source signature takes the declarations and the diagnostics list directly, although the registry calls it with the context. The model runs it on the context, reading its declarations and appending to its diagnostics.
- Legacy.AnalyzeRule001: the legacy rules take the declarations and a diagnostics list, and return the extended list instead of mutating a list shared by reference. The same holds for `Legacy.AnalyzeRule002` and `Legacy.AnalyzeRule003`.
- Legacy.AnalyzeRules.Analyze: states only the bag (multiset) of diagnostics, not their order, because a .NET `Dictionary` makes no promise about enumeration order. The loop visits the keys in an unspecified order.
- Legacy.AnalyzeRules.SetOnlyRules: clears the flags by visiting the keys in an unspecified order, for the same reason. The outcome does not depend on that order.
- `ArgumentResult` from System.CommandLine is reduced to its tokens' values and its `ErrorMessage`. Token parsing itself belongs to that library.
- Counts are unbounded integers. The source's `int` counts cannot get near overflow with four rules.
- The `IsSubmodule` property of the context is carried along, but no modelled rule reads it.
