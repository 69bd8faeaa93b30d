/**
 * The directive-placement rule: every directive usage must name a known
 * directive (section 5.7.1 "Directives Are Defined" of the GraphQL
 * specification, June 2018) used at one of its declared locations (section
 * 5.7.2 "Directives Are In Valid Locations"). The behaviour follows
 * src/validation/__tests__/KnownDirectives-test.js.
 */
module KnownDirectives {
  import opened Wrappers
  import opened Types
  import opened Language

  /** The location a directive written on a node of kind `k` is used at. */
  function Classify(k: NodeKind): (loc: Location)
    ensures loc.IsExecutable() <==> k.IsExecutable()
  {
    match k
    case OperationDefinition(op) =>
      (match op
       case QueryOperation => QUERY
       case MutationOperation => MUTATION
       case SubscriptionOperation => SUBSCRIPTION)
    case Field => FIELD
    case FragmentSpread => FRAGMENT_SPREAD
    case InlineFragment => INLINE_FRAGMENT
    case FragmentDefinition => FRAGMENT_DEFINITION
    case VariableDefinition => VARIABLE_DEFINITION
    case SchemaDefinition => SCHEMA
    case SchemaExtension => SCHEMA
    case ScalarTypeDefinition => SCALAR
    case ScalarTypeExtension => SCALAR
    case ObjectTypeDefinition => OBJECT
    case ObjectTypeExtension => OBJECT
    case FieldDefinition => FIELD_DEFINITION
    case InputValueDefinition(inInputObject) =>
      if inInputObject then INPUT_FIELD_DEFINITION else ARGUMENT_DEFINITION
    case InterfaceTypeDefinition => INTERFACE
    case InterfaceTypeExtension => INTERFACE
    case UnionTypeDefinition => UNION
    case UnionTypeExtension => UNION
    case EnumTypeDefinition => ENUM
    case EnumTypeExtension => ENUM
    case EnumValueDefinition => ENUM_VALUE
    case InputObjectTypeDefinition => INPUT_OBJECT
    case InputObjectTypeExtension => INPUT_OBJECT
  }

  /** The definition kind an extension kind extends; every other kind maps to itself. */
  function DefinitionKind(k: NodeKind): (d: NodeKind)
    ensures !d.IsExtension()
  {
    match k
    case SchemaExtension => SchemaDefinition
    case ScalarTypeExtension => ScalarTypeDefinition
    case ObjectTypeExtension => ObjectTypeDefinition
    case InterfaceTypeExtension => InterfaceTypeDefinition
    case UnionTypeExtension => UnionTypeDefinition
    case EnumTypeExtension => EnumTypeDefinition
    case InputObjectTypeExtension => InputObjectTypeDefinition
    case _ => k
  }

  /** A node kind for each location, written independently of `Classify`. */
  function Representative(loc: Location): NodeKind {
    match loc
    case QUERY => OperationDefinition(QueryOperation)
    case MUTATION => OperationDefinition(MutationOperation)
    case SUBSCRIPTION => OperationDefinition(SubscriptionOperation)
    case FIELD => NodeKind.Field
    case FRAGMENT_DEFINITION => FragmentDefinition
    case FRAGMENT_SPREAD => FragmentSpread
    case INLINE_FRAGMENT => InlineFragment
    case VARIABLE_DEFINITION => VariableDefinition
    case SCHEMA => SchemaDefinition
    case SCALAR => ScalarTypeDefinition
    case OBJECT => ObjectTypeDefinition
    case FIELD_DEFINITION => FieldDefinition
    case ARGUMENT_DEFINITION => InputValueDefinition(false)
    case INTERFACE => InterfaceTypeDefinition
    case UNION => UnionTypeDefinition
    case ENUM => EnumTypeDefinition
    case ENUM_VALUE => EnumValueDefinition
    case INPUT_OBJECT => InputObjectTypeDefinition
    case INPUT_FIELD_DEFINITION => InputValueDefinition(true)
  }

  /**
   * Two node kinds get the same location exactly when they are the same
   * kind once extensions are read as their definitions: an extension
   * classifies like its definition, and no two other kinds share a tag
   * (argument, field and input-field definitions included).
   */
  lemma ClassifySeparatesKinds(k1: NodeKind, k2: NodeKind)
    ensures Classify(k1) == Classify(k2) <==> DefinitionKind(k1) == DefinitionKind(k2)
  {
    RepresentativeOfClassify(k1);
    RepresentativeOfClassify(k2);
    ClassifyOnto(Classify(k1));
    ClassifyOnto(Classify(k2));
  }

  /** Reading a node's location back as a kind gives the kind it defines. */
  lemma RepresentativeOfClassify(k: NodeKind)
    ensures Representative(Classify(k)) == DefinitionKind(k)
  {
  }

  /** Every location is the location of some node kind: the classifier is onto. */
  lemma ClassifyOnto(loc: Location)
    ensures Classify(Representative(loc)) == loc
  {
  }

  /** The first directive of the registry with the given name. */
  function Lookup(registry: seq<Directive>, name: string): Option<Directive> {
    if |registry| == 0 then None
    else if registry[0].name == name then Some(registry[0])
    else Lookup(registry[1..], name)
  }

  /** Lookup finds a directive exactly when one has the name, and what it finds has that name. */
  lemma {:induction false} LookupSound(registry: seq<Directive>, name: string)
    ensures Lookup(registry, name).Some? <==> name in DirectiveNames(registry)
    ensures Lookup(registry, name).Some? ==>
      Lookup(registry, name).value in registry && Lookup(registry, name).value.name == name
    decreases |registry|
  {
    if |registry| > 0 {
      assert DirectiveNames(registry) == {registry[0].name} + DirectiveNames(registry[1..]) by {
        assert registry == [registry[0]] + registry[1..];
      }
      LookupSound(registry[1..], name);
    }
  }

  /** A directive is found by its name when no earlier directive has that name. */
  lemma {:induction false} LookupFinds(registry: seq<Directive>, i: nat)
    requires i < |registry|
    requires forall j :: 0 <= j < i ==> registry[j].name != registry[i].name
    ensures Lookup(registry, registry[i].name) == Some(registry[i])
    decreases i
  {
    if i > 0 {
      LookupFinds(registry[1..], i - 1);
    }
  }

  /** A name no directive has is not found. */
  lemma LookupMisses(registry: seq<Directive>, name: string)
    requires forall j :: 0 <= j < |registry| ==> registry[j].name != name
    ensures Lookup(registry, name) == None
  {
  }

  /** A report about one directive usage. */
  datatype Diagnostic =
    | UnknownDirective(name: string, at: Position)
    | MisplacedDirective(name: string, location: Location, at: Position)

  /** A usage passes when its directive is known and declared for the node's location. */
  predicate Accepted(registry: seq<Directive>, u: DirectiveUsage) {
    Lookup(registry, u.name).Some? && Classify(u.node) in Lookup(registry, u.name).value.locations
  }

  /**
   * The diagnostics for one usage: unknown when no directive has its name
   * (and nothing more is checked), misplaced when the node's location is
   * not declared, none otherwise.
   */
  function CheckUsage(registry: seq<Directive>, u: DirectiveUsage): seq<Diagnostic> {
    match Lookup(registry, u.name)
    case None => [UnknownDirective(u.name, u.at)]
    case Some(d) =>
      var loc := Classify(u.node);
      if loc in d.locations then [] else [MisplacedDirective(u.name, loc, u.at)]
  }

  /**
   * A usage passes exactly when it is accepted; otherwise it gets exactly
   * one report, the one the reference `Describes` asks for.
   */
  lemma CheckUsageSpec(registry: seq<Directive>, u: DirectiveUsage)
    ensures CheckUsage(registry, u) == [] <==> Accepted(registry, u)
    ensures !Accepted(registry, u) ==>
      |CheckUsage(registry, u)| == 1 && Describes(registry, CheckUsage(registry, u)[0], u)
  {
    LookupSound(registry, u.name);
  }

  /** A usage of a registered directive is reported exactly when its location is not declared. */
  lemma CheckDeclared(registry: seq<Directive>, u: DirectiveUsage, locations: set<Location>)
    requires Lookup(registry, u.name).Some? && Lookup(registry, u.name).value.locations == locations
    ensures CheckUsage(registry, u) ==
      if Classify(u.node) in locations then [] else [MisplacedDirective(u.name, Classify(u.node), u.at)]
  {
  }

  /** A usage of an unregistered name is reported as unknown, and nothing more. */
  lemma CheckUnknown(registry: seq<Directive>, u: DirectiveUsage)
    requires Lookup(registry, u.name) == None
    ensures CheckUsage(registry, u) == [UnknownDirective(u.name, u.at)]
  {
  }

  /** Checks every usage, in document order, and gathers every diagnostic. */
  function Validate(registry: seq<Directive>, usages: seq<DirectiveUsage>): seq<Diagnostic> {
    if |usages| == 0 then []
    else CheckUsage(registry, usages[0]) + Validate(registry, usages[1..])
  }

  /** The usages that do not pass, in document order. */
  function Rejected(registry: seq<Directive>, usages: seq<DirectiveUsage>): seq<DirectiveUsage> {
    if |usages| == 0 then []
    else (if Accepted(registry, usages[0]) then [] else [usages[0]]) + Rejected(registry, usages[1..])
  }

  /** The diagnostic a rejected usage deserves. */
  predicate Describes(registry: seq<Directive>, d: Diagnostic, u: DirectiveUsage) {
    && d.name == u.name && d.at == u.at
    && (d.UnknownDirective? <==> u.name !in DirectiveNames(registry))
    && (d.MisplacedDirective? ==>
          && Lookup(registry, u.name).Some?
          && d.location == Classify(u.node)
          && Classify(u.node) !in Lookup(registry, u.name).value.locations)
  }

  /**
   * Validation reports exactly one diagnostic per rejected usage, in
   * document order, each naming that usage's directive and position: an
   * unknown-directive report when the name is not registered, otherwise a
   * misplaced-directive report carrying the location the node classifies as.
   */
  lemma {:induction false} ValidateReportsRejected(registry: seq<Directive>, usages: seq<DirectiveUsage>)
    ensures |Validate(registry, usages)| == |Rejected(registry, usages)|
    ensures forall k :: 0 <= k < |Validate(registry, usages)| ==>
      Describes(registry, Validate(registry, usages)[k], Rejected(registry, usages)[k])
    decreases |usages|
  {
    if |usages| > 0 {
      ValidateReportsRejected(registry, usages[1..]);
      var v := Validate(registry, usages[1..]);
      var rj := Rejected(registry, usages[1..]);
      if !Accepted(registry, usages[0]) {
        LookupSound(registry, usages[0].name);
        assert Describes(registry, CheckUsage(registry, usages[0])[0], usages[0]);
        assert forall k :: 1 <= k < |v| + 1 ==> Validate(registry, usages)[k] == v[k - 1];
        assert forall k :: 1 <= k < |v| + 1 ==> Rejected(registry, usages)[k] == rj[k - 1];
      }
    }
  }

  /** A document passes exactly when every usage is known and well placed. */
  lemma {:induction false} ValidatePassesIff(registry: seq<Directive>, usages: seq<DirectiveUsage>)
    ensures Validate(registry, usages) == [] <==> forall i :: 0 <= i < |usages| ==> Accepted(registry, usages[i])
    decreases |usages|
  {
    if |usages| > 0 {
      ValidatePassesIff(registry, usages[1..]);
      assert forall i :: 1 <= i < |usages| ==> usages[i] == usages[1..][i - 1];
    }
  }

  /**
   * Validation never stops early: the diagnostics of a document are those
   * of its first part followed by those of the rest.
   */
  lemma {:induction false} ValidateAppend(registry: seq<Directive>, a: seq<DirectiveUsage>, b: seq<DirectiveUsage>)
    ensures Validate(registry, a + b) == Validate(registry, a) + Validate(registry, b)
    decreases |a|
  {
    if |a| == 0 {
      assert a + b == b;
    } else {
      assert (a + b)[1..] == a[1..] + b;
      ValidateAppend(registry, a[1..], b);
    }
  }

  /**
   * When no usage names a registered directive, there is one
   * unknown-directive report per usage, at that usage, in document order.
   */
  lemma {:induction false} ValidateAllUnknown(registry: seq<Directive>, usages: seq<DirectiveUsage>)
    requires forall i :: 0 <= i < |usages| ==> usages[i].name !in DirectiveNames(registry)
    ensures |Validate(registry, usages)| == |usages|
    ensures forall i :: 0 <= i < |usages| ==>
      Validate(registry, usages)[i] == UnknownDirective(usages[i].name, usages[i].at)
    decreases |usages|
  {
    if |usages| > 0 {
      ValidateAllUnknown(registry, usages[1..]);
      LookupSound(registry, usages[0].name);
      assert forall i :: 1 <= i < |usages| ==> usages[i] == usages[1..][i - 1];
    }
  }

  /** The rule as it runs: a walk over the usages that appends each report to the context. */
  method ValidateDocument(registry: seq<Directive>, usages: seq<DirectiveUsage>) returns (diagnostics: seq<Diagnostic>)
    ensures diagnostics == Validate(registry, usages)
  {
    diagnostics := [];
    var i := 0;
    while i < |usages|
      invariant 0 <= i <= |usages|
      invariant diagnostics == Validate(registry, usages[..i])
    {
      ValidateAppend(registry, usages[..i], [usages[i]]);
      assert usages[..i + 1] == usages[..i] + [usages[i]];
      diagnostics := diagnostics + CheckUsage(registry, usages[i]);
      i := i + 1;
    }
    assert usages[..i] == usages;
  }
}
