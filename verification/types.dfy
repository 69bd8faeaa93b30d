/**
 * The type-system data model: named types whose cross-references are type
 * names, fields and input values, directive definitions with their declared
 * locations, and the schema that owns them all in one name-keyed map.
 */
module Types {
  import opened Wrappers

  /**
   * The directive locations: the eighteen of section 3.13 "Directives" of
   * the GraphQL specification (June 2018), plus VARIABLE_DEFINITION, which
   * the rule's tests use (KnownDirectives-test.js:105, :133).
   */
  datatype Location =
    // executable locations
    | QUERY | MUTATION | SUBSCRIPTION | FIELD | FRAGMENT_DEFINITION
    | FRAGMENT_SPREAD | INLINE_FRAGMENT | VARIABLE_DEFINITION
    // type-system locations
    | SCHEMA | SCALAR | OBJECT | FIELD_DEFINITION | ARGUMENT_DEFINITION
    | INTERFACE | UNION | ENUM | ENUM_VALUE | INPUT_OBJECT | INPUT_FIELD_DEFINITION
  {
    predicate IsExecutable() {
      QUERY? || MUTATION? || SUBSCRIPTION? || FIELD? || FRAGMENT_DEFINITION?
      || FRAGMENT_SPREAD? || INLINE_FRAGMENT? || VARIABLE_DEFINITION?
    }
  }

  /**
   * A type as written at a use site: a named type possibly wrapped in List
   * and NonNull. The innermost name refers into the schema's type map.
   */
  datatype TypeRef = Named(name: string) | ListOf(ofType: TypeRef) | NonNull(ofType: TypeRef)

  /** The named type at the bottom of a chain of wrappers. */
  function Innermost(t: TypeRef): string {
    match t
    case Named(n) => n
    case ListOf(inner) => Innermost(inner)
    case NonNull(inner) => Innermost(inner)
  }

  /**
   * What the engine copies without looking inside: descriptions, deprecation
   * reasons, resolver functions and AST back-references.
   */
  datatype Payload = Payload(description: string, deprecationReason: string, handle: nat)

  /** An argument or an input-object field. */
  datatype InputValue = InputValue(name: string, valueType: TypeRef, payload: Payload)

  /** A field of an object or interface type. */
  datatype Field = Field(name: string, fieldType: TypeRef, args: seq<InputValue>, payload: Payload)

  /** An `extend type` node: the target's name and the fields and interfaces it adds. */
  datatype ObjectExtension = ObjectExtension(target: string, fields: seq<Field>, interfaces: seq<string>)

  /** The six named type kinds; references to other types are by name. */
  datatype NamedType =
    | ScalarType(name: string, payload: Payload)
    | ObjectType(name: string, fields: seq<Field>, interfaces: seq<string>,
                 extensionNodes: seq<ObjectExtension>, payload: Payload)
    | InterfaceType(name: string, fields: seq<Field>, payload: Payload)
    | UnionType(name: string, members: seq<string>, payload: Payload)
    | EnumType(name: string, values: seq<string>, payload: Payload)
    | InputObjectType(name: string, inputFields: seq<InputValue>, payload: Payload)

  /** A directive definition: its name, where it may be used, and its arguments. */
  datatype Directive = Directive(name: string, locations: set<Location>, args: seq<InputValue>)

  /**
   * A schema: the key order of its type map (the order in which extension
   * rebuilds its types), the map from name to type, the root operation
   * types and the ordered directive list.
   */
  datatype Schema = Schema(
    typeNames: seq<string>,
    types: map<string, NamedType>,
    query: string,
    mutation: Option<string>,
    subscription: Option<string>,
    directives: seq<Directive>)

  /** The reasons an extension is refused. */
  datatype SchemaError =
    | DuplicateType(typeName: string)
    | UnknownExtensionTarget(typeName: string)
    | NonObjectExtensionTarget(typeName: string)
    | DuplicateDirective(directiveName: string)
    | DuplicateField(typeName: string, fieldName: string)
    | DuplicateInterface(typeName: string, interfaceName: string)
      /** a name written in the document that nothing defines */
    | UnknownType(typeName: string)
      /** a name the original schema refers to but does not hold */
    | MissingType(typeName: string)

  function FieldNames(fields: seq<Field>): set<string> {
    set f | f in fields :: f.name
  }

  function DirectiveNames(directives: seq<Directive>): set<string> {
    set d | d in directives :: d.name
  }

  predicate DistinctFieldNames(fields: seq<Field>) {
    forall i, j :: 0 <= i < j < |fields| ==> fields[i].name != fields[j].name
  }

  predicate Distinct<T(==)>(s: seq<T>) {
    forall i, j :: 0 <= i < j < |s| ==> s[i] != s[j]
  }

  predicate InputValuesIn(values: seq<InputValue>, names: set<string>) {
    forall i :: 0 <= i < |values| ==> Innermost(values[i].valueType) in names
  }

  predicate FieldRefsIn(f: Field, names: set<string>) {
    Innermost(f.fieldType) in names && InputValuesIn(f.args, names)
  }

  predicate FieldsIn(fields: seq<Field>, names: set<string>) {
    forall i :: 0 <= i < |fields| ==> FieldRefsIn(fields[i], names)
  }

  predicate NamesIn(refs: seq<string>, names: set<string>) {
    forall i :: 0 <= i < |refs| ==> refs[i] in names
  }

  /** Every type name that `t` refers to is one of `names`. */
  predicate RefsIn(t: NamedType, names: set<string>) {
    match t
    case ScalarType(_, _) => true
    case ObjectType(_, fields, interfaces, _, _) => FieldsIn(fields, names) && NamesIn(interfaces, names)
    case InterfaceType(_, fields, _) => FieldsIn(fields, names)
    case UnionType(_, members, _) => NamesIn(members, names)
    case EnumType(_, _, _) => true
    case InputObjectType(_, inputFields, _) => InputValuesIn(inputFields, names)
  }

  /** Field names are unique within every object and interface type. */
  predicate FieldMapShape(t: NamedType) {
    (t.ObjectType? || t.InterfaceType?) ==> DistinctFieldNames(t.fields)
  }

  predicate RootIn(root: Option<string>, types: map<string, NamedType>) {
    root.Some? ==> root.value in types
  }

  /**
   * A consistent schema: the type list and the type map agree, every type is
   * stored under its own name, field names are unique, the roots exist, and
   * every reference (field, argument, interface, member, input field,
   * directive argument) names a type of the schema.
   */
  ghost predicate WellFormed(s: Schema) {
    && Distinct(s.typeNames)
    && (forall n :: n in s.types <==> n in s.typeNames)
    && (forall n :: n in s.types ==> s.types[n].name == n)
    && (forall n :: n in s.types ==> FieldMapShape(s.types[n]))
    && (forall n :: n in s.types ==> RefsIn(s.types[n], s.types.Keys))
    && s.query in s.types
    && RootIn(s.mutation, s.types)
    && RootIn(s.subscription, s.types)
    && (forall i :: 0 <= i < |s.directives| ==> InputValuesIn(s.directives[i].args, s.types.Keys))
  }
}
