/** The per-file state the rules share: the declarations they read and the
    diagnostics list every rule appends to. */
module Context {
  import opened Syntax
  import opened Diagnostics

  class AnalyzeContext {
    var isSubmodule: bool
    var declarations: seq<Declaration>
    var diagnostics: seq<Diagnostic>

    /** The three properties are `required` in the source: the caller supplies them. */
    constructor (isSubmodule: bool, declarations: seq<Declaration>, diagnostics: seq<Diagnostic>)
      ensures this.isSubmodule == isSubmodule
      ensures this.declarations == declarations
      ensures this.diagnostics == diagnostics
    {
      this.isSubmodule := isSubmodule;
      this.declarations := declarations;
      this.diagnostics := diagnostics;
    }

    /** `Diagnostics.Add`: appends one diagnostic at the end. */
    method Add(d: Diagnostic)
      modifies this`diagnostics
      ensures diagnostics == old(diagnostics) + [d]
    {
      diagnostics := diagnostics + [d];
    }
  }
}
