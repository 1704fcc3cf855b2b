/** Whole-file outcomes of the rules on small, concrete declaration sequences. */
module Scenarios {
  import opened Wrappers
  import opened Text
  import opened Syntax
  import opened RuleBase
  import AnalyzeRule001
  import AnalyzeRule002
  import AnalyzeRule003
  import AnalyzeRule004

  const Name := MetadataDeclaration(0, "name", StringSyntax(Some("Elastic" + " " + "SANs")), "metadata name = 'Elastic SANs'")
  const SingularName := MetadataDeclaration(0, "name", StringSyntax(Some("Elastic" + " " + "SAN")), "metadata name = 'Elastic SAN'")
  const Description := MetadataDeclaration(0, "description", StringSyntax(Some("This module deploys an Elastic" + " " + "SAN")),
    "metadata description = 'This module deploys an Elastic SAN'")
  const Owner := MetadataDeclaration(0, "owner", StringSyntax(Some(AnalyzeRule003.Owner)),
    "metadata owner = 'Azure/module-maintainers'")
  const ResourceGroupScope := TargetScope(0, StringSyntax(Some("resourceGroup")), "targetScope = 'resourceGroup'")

  /** The plural name passes rule 1 when the pluralizer calls 'SANs' plural. */
  lemma PluralNamePasses(declarations: seq<Declaration>, isPlural: string -> bool)
    requires |declarations| > 0 && declarations[0] == Name && isPlural("SANs")
    ensures AnalyzeRule001.Verdict(declarations, isPlural) == Pass
  {
    assert ' ' !in "SANs" by {
      assert forall i :: 0 <= i < |"SANs"| ==> "SANs"[i] != ' ';
    }
    assert !IsBlank("SANs") by {
      assert !IsWhiteSpace("SANs"[0]);
    }
    AnalyzeRule001.LastWordDecides(declarations, isPlural, "Elastic", "SANs");
  }

  /** The description passes rule 2 when the pluralizer calls 'SAN' singular. */
  lemma DescriptionPasses(declarations: seq<Declaration>, isPlural: string -> bool)
    requires |declarations| > 1 && declarations[1] == Description && !isPlural("SAN")
    ensures AnalyzeRule002.Verdict(declarations, isPlural) == Pass
  {
    assert StartsWith("This module deploys an Elastic", AnalyzeRule002.RequiredPrefix);
    AnalyzeRule002.LastWordDecides(declarations, isPlural, "This module deploys an Elastic", "SAN");
    assert !IsWhiteSpace("SAN"[0]);
  }

  /** A well-formed header passes rules 1 to 3, given that the pluralizer calls
      'SANs' plural and 'SAN' not. */
  lemma WellFormedHeaderPasses(isPlural: string -> bool)
    requires isPlural("SANs") && !isPlural("SAN")
    ensures AnalyzeRule001.Verdict([Name, Description, Owner], isPlural) == Pass
    ensures AnalyzeRule002.Verdict([Name, Description, Owner], isPlural) == Pass
    ensures AnalyzeRule003.Verdict([Name, Description, Owner]) == Pass
  {
    var decls := [Name, Description, Owner];
    PluralNamePasses(decls, isPlural);
    DescriptionPasses(decls, isPlural);
    AnalyzeRule003.PassIff(decls);
  }

  /** A lone singular name fails rule 1 with the name quoted, and rules 2 and 3
      without a value, as their declarations are missing. */
  lemma LoneSingularName(isPlural: string -> bool)
    requires !isPlural("SAN")
    ensures AnalyzeRule001.Verdict([SingularName], isPlural) == Fail(Some("Elastic" + " " + "SAN"))
    ensures AnalyzeRule002.Verdict([SingularName], isPlural) == Fail(None)
    ensures AnalyzeRule003.Verdict([SingularName]) == Fail(None)
  {
    assert ' ' !in "SAN" by {
      assert forall i :: 0 <= i < |"SAN"| ==> "SAN"[i] != ' ';
    }
    assert !IsBlank("SAN") by {
      assert !IsWhiteSpace("SAN"[0]);
    }
    AnalyzeRule001.LastWordDecides([SingularName], isPlural, "Elastic", "SAN");
  }

  /** A 'resourceGroup' scope right after two metadata declarations fails rule 4
      with the value quoted. */
  lemma ResourceGroupAfterHeader()
    ensures AnalyzeRule004.Verdict([Name, Description, ResourceGroupScope]) == Fail(Some("resourceGroup"))
  {
    var decls := [Name, Description, ResourceGroupScope];
    assert decls[1..] == [Description, ResourceGroupScope];
    assert decls[1..][1..] == [ResourceGroupScope];
    assert decls[1..][1..][1..] == [];
    assert AnalyzeRule004.TargetScopeCount(decls[1..][1..][1..]) == 0;
    assert AnalyzeRule004.TargetScopeCount(decls[1..][1..]) == 1;
    assert AnalyzeRule004.TargetScopeCount(decls) == 1;
    assert AnalyzeRule004.LeadingMetadataCount(decls[1..][1..]) == 0;
    assert AnalyzeRule004.LeadingMetadataCount(decls) == 2;
    assert !IsWhiteSpace("resourceGroup"[0]);
    AnalyzeRule004.ResourceGroupNotAllowed();
  }

  /** A sequence of fewer than three declarations always fails rule 3 without a
      value. */
  lemma ShortSequences(declarations: seq<Declaration>)
    requires |declarations| < 3
    ensures AnalyzeRule003.Verdict(declarations) == Fail(None)
  {
  }

  /** Rule 1 can pass on a single declaration: the plural name alone. */
  lemma LoneNamePasses(isPlural: string -> bool)
    requires isPlural("SANs")
    ensures AnalyzeRule001.Verdict([Name], isPlural) == Pass
  {
    PluralNamePasses([Name], isPlural);
  }

  /** Rule 2 can pass on two declarations: the name and the description. */
  lemma TwoDeclarationsPassRule2(isPlural: string -> bool)
    requires !isPlural("SAN")
    ensures AnalyzeRule002.Verdict([Name, Description], isPlural) == Pass
  {
    DescriptionPasses([Name, Description], isPlural);
  }
}
