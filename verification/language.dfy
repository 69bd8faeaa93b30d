/**
 * The parts of a parsed document that the core consumes. Parsing itself is
 * outside the model: a document reaches the extension engine as its list of
 * top-level definitions, and reaches the directive validator as the list of
 * directive usages met by a depth-first, left-to-right walk.
 */
module Language {
  import opened Types

  /**
   * A top-level definition as the extension engine sees it. A type definition
   * carries the type the definition builder makes of it; every definition
   * kind the engine does not act on (operations, fragments, schema
   * definitions, and extensions of scalars, interfaces, unions, enums, input
   * objects and the schema) is `OtherDefinition`.
   */
  datatype Definition =
    | TypeDefinition(newType: NamedType)
    | ObjectExtensionDefinition(extension: ObjectExtension)
    | DirectiveDefinition(directive: Directive)
    | OtherDefinition

  datatype OperationKind = QueryOperation | MutationOperation | SubscriptionOperation

  /** The kinds of AST node that may carry a directive list. */
  datatype NodeKind =
    | OperationDefinition(operation: OperationKind)
    | Field
    | FragmentSpread
    | InlineFragment
    | FragmentDefinition
    | VariableDefinition
    | SchemaDefinition
    | SchemaExtension
    | ScalarTypeDefinition
    | ScalarTypeExtension
    | ObjectTypeDefinition
    | ObjectTypeExtension
    | FieldDefinition
      /** an argument definition, or an input field when the enclosing type is an input object */
    | InputValueDefinition(inInputObject: bool)
    | InterfaceTypeDefinition
    | InterfaceTypeExtension
    | UnionTypeDefinition
    | UnionTypeExtension
    | EnumTypeDefinition
    | EnumTypeExtension
    | EnumValueDefinition
    | InputObjectTypeDefinition
    | InputObjectTypeExtension
  {
    predicate IsExtension() {
      SchemaExtension? || ScalarTypeExtension? || ObjectTypeExtension? || InterfaceTypeExtension?
      || UnionTypeExtension? || EnumTypeExtension? || InputObjectTypeExtension?
    }

    /** Nodes of executable documents, as opposed to schema-definition-language nodes. */
    predicate IsExecutable() {
      OperationDefinition? || Field? || FragmentSpread? || InlineFragment?
      || FragmentDefinition? || VariableDefinition?
    }
  }

  /** A source position, used only to say where a diagnostic points. */
  datatype Position = Position(line: nat, column: nat)

  /** One `@name(...)` written on a node of the given kind at the given position. */
  datatype DirectiveUsage = DirectiveUsage(name: string, node: NodeKind, at: Position)
}
