/** The top-level declarations of a parsed Bicep file, as far as the rules look at
    them. The Bicep syntax classes belong to the parser and are not part of this
    model; each declaration carries what the rules read from it: its decorator
    count, its identifier, its value and its `ToString()` text. */
module Syntax {
  import opened Wrappers

  /** The value expression of a declaration. For a string, `literal` is what
      `TryGetLiteralValue()` gives: `None` for an interpolated string. */
  datatype Value =
    | StringSyntax(literal: Option<string>)
    | OtherSyntax

  /** `MetadataDeclarationSyntax`, `TargetScopeSyntax`, or any other statement.
      `text` stands for the node's `ToString()`. */
  datatype Declaration =
    | MetadataDeclaration(decoratorCount: nat, identifierName: string, value: Value, text: string)
    | TargetScope(decoratorCount: nat, value: Value, text: string)
    | OtherDeclaration(text: string)
}
