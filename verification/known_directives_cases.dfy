/**
 * The cases of src/validation/__tests__/KnownDirectives-test.js, each as
 * the list of directive usages its document holds (in document order, with
 * the positions the expected diagnostics name) and the diagnostics it
 * expects.
 */
module KnownDirectivesCases {
  import opened Wrappers
  import opened Types
  import opened Language
  import opened KnownDirectives

  function Declared(name: string, locations: set<Location>): Directive {
    Directive(name, locations, [])
  }

  /** The directives every schema declares. */
  const BuiltIns: seq<Directive> := [
    Declared("include", {FIELD, FRAGMENT_SPREAD, INLINE_FRAGMENT}),
    Declared("skip", {FIELD, FRAGMENT_SPREAD, INLINE_FRAGMENT})
  ]

  /** One directive per executable location. */
  const ExecutableOn: seq<Directive> := [
    Declared("onQuery", {QUERY}),
    Declared("onMutation", {MUTATION}),
    Declared("onSubscription", {SUBSCRIPTION}),
    Declared("onField", {FIELD}),
    Declared("onFragmentDefinition", {FRAGMENT_DEFINITION}),
    Declared("onFragmentSpread", {FRAGMENT_SPREAD}),
    Declared("onInlineFragment", {INLINE_FRAGMENT}),
    Declared("onVariableDefinition", {VARIABLE_DEFINITION})
  ]

  /** One directive per type-system location. */
  const TypeSystemOn: seq<Directive> := [
    Declared("onSchema", {SCHEMA}),
    Declared("onScalar", {SCALAR}),
    Declared("onObject", {OBJECT}),
    Declared("onFieldDefinition", {FIELD_DEFINITION}),
    Declared("onArgumentDefinition", {ARGUMENT_DEFINITION}),
    Declared("onInterface", {INTERFACE}),
    Declared("onUnion", {UNION}),
    Declared("onEnum", {ENUM}),
    Declared("onEnumValue", {ENUM_VALUE}),
    Declared("onInputObject", {INPUT_OBJECT}),
    Declared("onInputFieldDefinition", {INPUT_FIELD_DEFINITION})
  ]

  /**
   * The directives the test schema declares: the built-in `include` and
   * `skip`, and one `onX` directive per location X.
   */
  const Registry: seq<Directive> := BuiltIns + ExecutableOn + TypeSystemOn

  predicate Declares(registry: seq<Directive>, name: string, locations: set<Location>) {
    Lookup(registry, name) == Some(Declared(name, locations))
  }

  /** The first ten entries of the directive table. */
  ghost predicate ExecutableEntries(registry: seq<Directive>) {
    && |registry| == 21
    && registry[0] == Declared("include", {FIELD, FRAGMENT_SPREAD, INLINE_FRAGMENT})
    && registry[1] == Declared("skip", {FIELD, FRAGMENT_SPREAD, INLINE_FRAGMENT})
    && registry[2] == Declared("onQuery", {QUERY})
    && registry[3] == Declared("onMutation", {MUTATION})
    && registry[4] == Declared("onSubscription", {SUBSCRIPTION})
    && registry[5] == Declared("onField", {FIELD})
    && registry[6] == Declared("onFragmentDefinition", {FRAGMENT_DEFINITION})
    && registry[7] == Declared("onFragmentSpread", {FRAGMENT_SPREAD})
    && registry[8] == Declared("onInlineFragment", {INLINE_FRAGMENT})
    && registry[9] == Declared("onVariableDefinition", {VARIABLE_DEFINITION})
  }

  /** The last eleven entries of the directive table. */
  ghost predicate TypeSystemEntries(registry: seq<Directive>) {
    && |registry| == 21
    && registry[10] == Declared("onSchema", {SCHEMA})
    && registry[11] == Declared("onScalar", {SCALAR})
    && registry[12] == Declared("onObject", {OBJECT})
    && registry[13] == Declared("onFieldDefinition", {FIELD_DEFINITION})
    && registry[14] == Declared("onArgumentDefinition", {ARGUMENT_DEFINITION})
    && registry[15] == Declared("onInterface", {INTERFACE})
    && registry[16] == Declared("onUnion", {UNION})
    && registry[17] == Declared("onEnum", {ENUM})
    && registry[18] == Declared("onEnumValue", {ENUM_VALUE})
    && registry[19] == Declared("onInputObject", {INPUT_OBJECT})
    && registry[20] == Declared("onInputFieldDefinition", {INPUT_FIELD_DEFINITION})
  }

  /** A table laid out entry by entry as the test schema's. */
  ghost predicate Layout(registry: seq<Directive>) {
    ExecutableEntries(registry) && TypeSystemEntries(registry)
  }

  lemma RegistryExecutableEntries()
    ensures ExecutableEntries(Registry)
  {
  }

  lemma RegistryTypeSystemEntries()
    ensures TypeSystemEntries(Registry)
  {
  }

  lemma RegistryLayout()
    ensures Layout(Registry)
  {
    RegistryExecutableEntries();
    RegistryTypeSystemEntries();
  }

  lemma ExecutableNamesDistinct(registry: seq<Directive>)
    requires ExecutableEntries(registry)
    ensures forall i, j :: 0 <= i < j < 10 ==> registry[i].name != registry[j].name
  {
  }

  lemma TypeSystemNamesDistinct(registry: seq<Directive>)
    requires TypeSystemEntries(registry)
    ensures forall i, j :: 10 <= i < j < 21 ==> registry[i].name != registry[j].name
  {
  }

  lemma CrossNamesDistinct(registry: seq<Directive>, lo: nat, hi: nat)
    requires Layout(registry)
    requires 10 <= lo <= hi <= 21 && hi - lo <= 6
    ensures forall i, j :: 0 <= i < 10 && lo <= j < hi ==> registry[i].name != registry[j].name
  {
  }

  lemma UnknownAbsent(registry: seq<Directive>)
    requires Layout(registry)
    ensures forall i :: 0 <= i < |registry| ==> registry[i].name != "unknown"
  {
  }

  /** The table's names are distinct, and `unknown` is not among them. */
  lemma LayoutNames(registry: seq<Directive>)
    requires Layout(registry)
    ensures forall i, j :: 0 <= i < j < |registry| ==> registry[i].name != registry[j].name
    ensures forall i :: 0 <= i < |registry| ==> registry[i].name != "unknown"
  {
    ExecutableNamesDistinct(registry);
    TypeSystemNamesDistinct(registry);
    CrossNamesDistinct(registry, 10, 15);
    CrossNamesDistinct(registry, 15, 21);
    UnknownAbsent(registry);
  }

  lemma DeclaresAt(registry: seq<Directive>, i: nat, name: string, locations: set<Location>)
    requires i < |registry| && registry[i] == Declared(name, locations)
    requires forall j :: 0 <= j < i ==> registry[j].name != name
    ensures Declares(registry, name, locations)
  {
    LookupFinds(registry, i);
  }

  /** What the cases rely on about the directive table: which names it declares, and where. */
  ghost predicate IsTestRegistry(registry: seq<Directive>) {
    && Declares(registry, "include", {FIELD, FRAGMENT_SPREAD, INLINE_FRAGMENT})
    && Declares(registry, "skip", {FIELD, FRAGMENT_SPREAD, INLINE_FRAGMENT})
    && Declares(registry, "onQuery", {QUERY})
    && Declares(registry, "onMutation", {MUTATION})
    && Declares(registry, "onField", {FIELD})
    && Declares(registry, "onVariableDefinition", {VARIABLE_DEFINITION})
    && Declares(registry, "onSchema", {SCHEMA})
    && Declares(registry, "onScalar", {SCALAR})
    && Declares(registry, "onObject", {OBJECT})
    && Declares(registry, "onFieldDefinition", {FIELD_DEFINITION})
    && Declares(registry, "onArgumentDefinition", {ARGUMENT_DEFINITION})
    && Declares(registry, "onInterface", {INTERFACE})
    && Declares(registry, "onUnion", {UNION})
    && Declares(registry, "onEnum", {ENUM})
    && Declares(registry, "onEnumValue", {ENUM_VALUE})
    && Declares(registry, "onInputObject", {INPUT_OBJECT})
    && Declares(registry, "onInputFieldDefinition", {INPUT_FIELD_DEFINITION})
    && Lookup(registry, "unknown") == None
  }

  lemma LayoutIsTestRegistry(registry: seq<Directive>)
    requires Layout(registry)
    ensures IsTestRegistry(registry)
  {
    LayoutNames(registry);
    DeclaresAt(registry, 0, "include", {FIELD, FRAGMENT_SPREAD, INLINE_FRAGMENT});
    DeclaresAt(registry, 1, "skip", {FIELD, FRAGMENT_SPREAD, INLINE_FRAGMENT});
    DeclaresAt(registry, 2, "onQuery", {QUERY});
    DeclaresAt(registry, 3, "onMutation", {MUTATION});
    DeclaresAt(registry, 5, "onField", {FIELD});
    DeclaresAt(registry, 9, "onVariableDefinition", {VARIABLE_DEFINITION});
    DeclaresAt(registry, 10, "onSchema", {SCHEMA});
    DeclaresAt(registry, 11, "onScalar", {SCALAR});
    DeclaresAt(registry, 12, "onObject", {OBJECT});
    DeclaresAt(registry, 13, "onFieldDefinition", {FIELD_DEFINITION});
    DeclaresAt(registry, 14, "onArgumentDefinition", {ARGUMENT_DEFINITION});
    DeclaresAt(registry, 15, "onInterface", {INTERFACE});
    DeclaresAt(registry, 16, "onUnion", {UNION});
    DeclaresAt(registry, 17, "onEnum", {ENUM});
    DeclaresAt(registry, 18, "onEnumValue", {ENUM_VALUE});
    DeclaresAt(registry, 19, "onInputObject", {INPUT_OBJECT});
    DeclaresAt(registry, 20, "onInputFieldDefinition", {INPUT_FIELD_DEFINITION});
    LookupMisses(registry, "unknown");
  }

  lemma RegistryIsTestRegistry()
    ensures IsTestRegistry(Registry)
  {
    RegistryLayout();
    LayoutIsTestRegistry(Registry);
  }

  /** A usage of directive `name` on a node of kind `node`, at line:column. */
  function Use(name: string, node: NodeKind, line: nat, column: nat): DirectiveUsage {
    DirectiveUsage(name, node, Position(line, column))
  }

  /** The diagnostics of several usages, one list per usage, joined in order. */
  function Flatten(parts: seq<seq<Diagnostic>>): seq<Diagnostic> {
    if |parts| == 0 then [] else parts[0] + Flatten(parts[1..])
  }

  /** Validation is the per-usage checks joined in document order. */
  lemma {:induction false} ValidateMatches(registry: seq<Directive>, usages: seq<DirectiveUsage>, expected: seq<seq<Diagnostic>>)
    requires |usages| == |expected|
    requires forall i :: 0 <= i < |usages| ==> CheckUsage(registry, usages[i]) == expected[i]
    ensures Validate(registry, usages) == Flatten(expected)
    decreases |usages|
  {
    if |usages| > 0 {
      ValidateMatches(registry, usages[1..], expected[1..]);
    }
  }

  // KnownDirectives-test.js:47-61

  const KnownExecutable: seq<DirectiveUsage> := [
    Use("include", NodeKind.Field, 3, 13),
    Use("skip", NodeKind.Field, 6, 15)
  ]

  lemma KnownDirectivesPassFor(registry: seq<Directive>)
    requires IsTestRegistry(registry)
    ensures Validate(registry, KnownExecutable) == []
  {
    CheckDeclared(registry, KnownExecutable[0], {FIELD, FRAGMENT_SPREAD, INLINE_FRAGMENT});
    CheckDeclared(registry, KnownExecutable[1], {FIELD, FRAGMENT_SPREAD, INLINE_FRAGMENT});
    ValidateMatches(registry, KnownExecutable, [
      [],
      []
    ]);
  }

  /** KnownDirectives-test.js:47-61, with known directives: `include` and `skip` on fields pass. */
  lemma KnownDirectivesPass()
    ensures Validate(Registry, KnownExecutable) == []
  {
    RegistryIsTestRegistry();
    KnownDirectivesPassFor(Registry);
  }

  // KnownDirectives-test.js:63-75

  const OneUnknown: seq<DirectiveUsage> := [
    Use("unknown", NodeKind.Field, 3, 13)
  ]

  lemma UnknownDirectiveReportedFor(registry: seq<Directive>)
    requires IsTestRegistry(registry)
    ensures Validate(registry, OneUnknown) == [
      UnknownDirective("unknown", Position(3, 13))
    ]
  {
    CheckUnknown(registry, OneUnknown[0]);
    ValidateMatches(registry, OneUnknown, [
      [UnknownDirective("unknown", Position(3, 13))]
    ]);
  }

  /** KnownDirectives-test.js:63-75, with unknown directive: one usage of an undeclared name is reported. */
  lemma UnknownDirectiveReported()
    ensures Validate(Registry, OneUnknown) == [
      UnknownDirective("unknown", Position(3, 13))
    ]
  {
    RegistryIsTestRegistry();
    UnknownDirectiveReportedFor(Registry);
  }

  // KnownDirectives-test.js:77-99

  const ManyUnknown: seq<DirectiveUsage> := [
    Use("unknown", NodeKind.Field, 3, 13),
    Use("unknown", NodeKind.Field, 6, 15),
    Use("unknown", NodeKind.Field, 8, 16)
  ]

  lemma ManyUnknownDirectivesReportedFor(registry: seq<Directive>)
    requires IsTestRegistry(registry)
    ensures Validate(registry, ManyUnknown) == [
      UnknownDirective("unknown", Position(3, 13)),
      UnknownDirective("unknown", Position(6, 15)),
      UnknownDirective("unknown", Position(8, 16))
    ]
  {
    CheckUnknown(registry, ManyUnknown[0]);
    CheckUnknown(registry, ManyUnknown[1]);
    CheckUnknown(registry, ManyUnknown[2]);
    ValidateMatches(registry, ManyUnknown, [
      [UnknownDirective("unknown", Position(3, 13))],
      [UnknownDirective("unknown", Position(6, 15))],
      [UnknownDirective("unknown", Position(8, 16))]
    ]);
  }

  /** KnownDirectives-test.js:77-99, with many unknown directives: every usage of an undeclared name is reported, in document order. */
  lemma ManyUnknownDirectivesReported()
    ensures Validate(Registry, ManyUnknown) == [
      UnknownDirective("unknown", Position(3, 13)),
      UnknownDirective("unknown", Position(6, 15)),
      UnknownDirective("unknown", Position(8, 16))
    ]
  {
    RegistryIsTestRegistry();
    ManyUnknownDirectivesReportedFor(Registry);
  }

  // KnownDirectives-test.js:101-117

  const WellPlacedQueryHead: seq<DirectiveUsage> := [
    Use("onVariableDefinition", VariableDefinition, 2, 31),
    Use("onQuery", OperationDefinition(QueryOperation), 2, 54)
  ]

  const WellPlacedIncludes: seq<DirectiveUsage> := [
    Use("include", NodeKind.Field, 3, 14),
    Use("include", FragmentSpread, 4, 17)
  ]

  const WellPlacedSkips: seq<DirectiveUsage> := [
    Use("skip", NodeKind.Field, 5, 22),
    Use("skip", FragmentSpread, 6, 24)
  ]

  const WellPlacedMutation: seq<DirectiveUsage> := [
    Use("onMutation", OperationDefinition(MutationOperation), 9, 20)
  ]

  const WellPlacedExecutable: seq<DirectiveUsage> := WellPlacedQueryHead + WellPlacedIncludes + WellPlacedSkips + WellPlacedMutation

  lemma WellPlacedQueryHeadChecked(registry: seq<Directive>)
    requires IsTestRegistry(registry)
    ensures Validate(registry, WellPlacedQueryHead) == []
  {
    CheckDeclared(registry, WellPlacedQueryHead[0], {VARIABLE_DEFINITION});
    CheckDeclared(registry, WellPlacedQueryHead[1], {QUERY});
    ValidateMatches(registry, WellPlacedQueryHead, [
      [],
      []
    ]);
  }

  lemma WellPlacedIncludesChecked(registry: seq<Directive>)
    requires IsTestRegistry(registry)
    ensures Validate(registry, WellPlacedIncludes) == []
  {
    CheckDeclared(registry, WellPlacedIncludes[0], {FIELD, FRAGMENT_SPREAD, INLINE_FRAGMENT});
    CheckDeclared(registry, WellPlacedIncludes[1], {FIELD, FRAGMENT_SPREAD, INLINE_FRAGMENT});
    ValidateMatches(registry, WellPlacedIncludes, [
      [],
      []
    ]);
  }

  lemma WellPlacedSkipsChecked(registry: seq<Directive>)
    requires IsTestRegistry(registry)
    ensures Validate(registry, WellPlacedSkips) == []
  {
    CheckDeclared(registry, WellPlacedSkips[0], {FIELD, FRAGMENT_SPREAD, INLINE_FRAGMENT});
    CheckDeclared(registry, WellPlacedSkips[1], {FIELD, FRAGMENT_SPREAD, INLINE_FRAGMENT});
    ValidateMatches(registry, WellPlacedSkips, [
      [],
      []
    ]);
  }

  lemma WellPlacedMutationChecked(registry: seq<Directive>)
    requires IsTestRegistry(registry)
    ensures Validate(registry, WellPlacedMutation) == []
  {
    CheckDeclared(registry, WellPlacedMutation[0], {MUTATION});
    ValidateMatches(registry, WellPlacedMutation, [
      []
    ]);
  }

  lemma WellPlacedExecutablePassFor(registry: seq<Directive>)
    requires IsTestRegistry(registry)
    ensures Validate(registry, WellPlacedExecutable) == []
  {
    WellPlacedQueryHeadChecked(registry);
    WellPlacedIncludesChecked(registry);
    WellPlacedSkipsChecked(registry);
    WellPlacedMutationChecked(registry);
    ValidateAppend(registry, WellPlacedQueryHead, WellPlacedIncludes);
    ValidateAppend(registry, WellPlacedQueryHead + WellPlacedIncludes, WellPlacedSkips);
    ValidateAppend(registry, WellPlacedQueryHead + WellPlacedIncludes + WellPlacedSkips, WellPlacedMutation);
  }

  /** KnownDirectives-test.js:101-117, with well placed directives: every usage in an executable document is declared for where it stands. */
  lemma WellPlacedExecutablePass()
    ensures Validate(Registry, WellPlacedExecutable) == []
  {
    RegistryIsTestRegistry();
    WellPlacedExecutablePassFor(Registry);
  }

  // KnownDirectives-test.js:119-140

  const MisplacedQueryHead: seq<DirectiveUsage> := [
    Use("onField", VariableDefinition, 2, 31),
    Use("include", OperationDefinition(QueryOperation), 2, 41)
  ]

  const MisplacedSelections: seq<DirectiveUsage> := [
    Use("onQuery", NodeKind.Field, 3, 14),
    Use("include", NodeKind.Field, 3, 23),
    Use("onQuery", FragmentSpread, 4, 17)
  ]

  const MisplacedMutation: seq<DirectiveUsage> := [
    Use("onQuery", OperationDefinition(MutationOperation), 7, 20)
  ]

  const MisplacedExecutable: seq<DirectiveUsage> := MisplacedQueryHead + MisplacedSelections + MisplacedMutation

  lemma MisplacedQueryHeadChecked(registry: seq<Directive>)
    requires IsTestRegistry(registry)
    ensures Validate(registry, MisplacedQueryHead) == [
      MisplacedDirective("onField", VARIABLE_DEFINITION, Position(2, 31)),
      MisplacedDirective("include", QUERY, Position(2, 41))
    ]
  {
    CheckDeclared(registry, MisplacedQueryHead[0], {FIELD});
    CheckDeclared(registry, MisplacedQueryHead[1], {FIELD, FRAGMENT_SPREAD, INLINE_FRAGMENT});
    ValidateMatches(registry, MisplacedQueryHead, [
      [MisplacedDirective("onField", VARIABLE_DEFINITION, Position(2, 31))],
      [MisplacedDirective("include", QUERY, Position(2, 41))]
    ]);
  }

  lemma MisplacedSelectionsChecked(registry: seq<Directive>)
    requires IsTestRegistry(registry)
    ensures Validate(registry, MisplacedSelections) == [
      MisplacedDirective("onQuery", FIELD, Position(3, 14)),
      MisplacedDirective("onQuery", FRAGMENT_SPREAD, Position(4, 17))
    ]
  {
    CheckDeclared(registry, MisplacedSelections[0], {QUERY});
    CheckDeclared(registry, MisplacedSelections[1], {FIELD, FRAGMENT_SPREAD, INLINE_FRAGMENT});
    CheckDeclared(registry, MisplacedSelections[2], {QUERY});
    ValidateMatches(registry, MisplacedSelections, [
      [MisplacedDirective("onQuery", FIELD, Position(3, 14))],
      [],
      [MisplacedDirective("onQuery", FRAGMENT_SPREAD, Position(4, 17))]
    ]);
  }

  lemma MisplacedMutationChecked(registry: seq<Directive>)
    requires IsTestRegistry(registry)
    ensures Validate(registry, MisplacedMutation) == [
      MisplacedDirective("onQuery", MUTATION, Position(7, 20))
    ]
  {
    CheckDeclared(registry, MisplacedMutation[0], {QUERY});
    ValidateMatches(registry, MisplacedMutation, [
      [MisplacedDirective("onQuery", MUTATION, Position(7, 20))]
    ]);
  }

  lemma MisplacedExecutableReportedFor(registry: seq<Directive>)
    requires IsTestRegistry(registry)
    ensures Validate(registry, MisplacedExecutable) == [
      MisplacedDirective("onField", VARIABLE_DEFINITION, Position(2, 31)),
      MisplacedDirective("include", QUERY, Position(2, 41))
    ] + [
      MisplacedDirective("onQuery", FIELD, Position(3, 14)),
      MisplacedDirective("onQuery", FRAGMENT_SPREAD, Position(4, 17))
    ] + [
      MisplacedDirective("onQuery", MUTATION, Position(7, 20))
    ]
  {
    MisplacedQueryHeadChecked(registry);
    MisplacedSelectionsChecked(registry);
    MisplacedMutationChecked(registry);
    ValidateAppend(registry, MisplacedQueryHead, MisplacedSelections);
    ValidateAppend(registry, MisplacedQueryHead + MisplacedSelections, MisplacedMutation);
  }

  /** KnownDirectives-test.js:119-140, with misplaced directives: each misplaced usage in an executable document is reported with the location it stands at; the well-placed `@include(if: $var)` at 3:23 adds nothing. */
  lemma MisplacedExecutableReported()
    ensures Validate(Registry, MisplacedExecutable) == [
      MisplacedDirective("onField", VARIABLE_DEFINITION, Position(2, 31)),
      MisplacedDirective("include", QUERY, Position(2, 41))
    ] + [
      MisplacedDirective("onQuery", FIELD, Position(3, 14)),
      MisplacedDirective("onQuery", FRAGMENT_SPREAD, Position(4, 17))
    ] + [
      MisplacedDirective("onQuery", MUTATION, Position(7, 20))
    ]
  {
    RegistryIsTestRegistry();
    MisplacedExecutableReportedFor(Registry);
  }

  // KnownDirectives-test.js:143-186

  const WellPlacedObject: seq<DirectiveUsage> := [
    Use("onObject", ObjectTypeDefinition, 2, 43),
    Use("onArgumentDefinition", InputValueDefinition(false), 3, 30),
    Use("onFieldDefinition", FieldDefinition, 3, 61)
  ]

  const WellPlacedObjectExtension: seq<DirectiveUsage> := [
    Use("onObject", ObjectTypeExtension, 6, 27)
  ]

  const WellPlacedScalar: seq<DirectiveUsage> := [
    Use("onScalar", ScalarTypeDefinition, 8, 25),
    Use("onScalar", ScalarTypeExtension, 10, 32)
  ]

  const WellPlacedInterface: seq<DirectiveUsage> := [
    Use("onInterface", InterfaceTypeDefinition, 12, 31),
    Use("onArgumentDefinition", InputValueDefinition(false), 13, 30),
    Use("onFieldDefinition", FieldDefinition, 13, 61)
  ]

  const WellPlacedInterfaceExtension: seq<DirectiveUsage> := [
    Use("onInterface", InterfaceTypeExtension, 16, 38)
  ]

  const WellPlacedUnion: seq<DirectiveUsage> := [
    Use("onUnion", UnionTypeDefinition, 18, 23),
    Use("onUnion", UnionTypeExtension, 20, 30)
  ]

  const WellPlacedEnum: seq<DirectiveUsage> := [
    Use("onEnum", EnumTypeDefinition, 22, 21),
    Use("onEnumValue", EnumValueDefinition, 23, 20),
    Use("onEnum", EnumTypeExtension, 26, 28)
  ]

  const WellPlacedInput: seq<DirectiveUsage> := [
    Use("onInputObject", InputObjectTypeDefinition, 28, 23),
    Use("onInputFieldDefinition", InputValueDefinition(true), 29, 24),
    Use("onInputObject", InputObjectTypeExtension, 32, 30)
  ]

  const WellPlacedSchema: seq<DirectiveUsage> := [
    Use("onSchema", SchemaDefinition, 34, 16),
    Use("onSchema", SchemaExtension, 38, 23)
  ]

  const WellPlacedSchemaLanguage: seq<DirectiveUsage> := WellPlacedObject + WellPlacedObjectExtension + WellPlacedScalar + WellPlacedInterface + WellPlacedInterfaceExtension + WellPlacedUnion + WellPlacedEnum + WellPlacedInput + WellPlacedSchema

  lemma WellPlacedObjectChecked(registry: seq<Directive>)
    requires IsTestRegistry(registry)
    ensures Validate(registry, WellPlacedObject) == []
  {
    CheckDeclared(registry, WellPlacedObject[0], {OBJECT});
    CheckDeclared(registry, WellPlacedObject[1], {ARGUMENT_DEFINITION});
    CheckDeclared(registry, WellPlacedObject[2], {FIELD_DEFINITION});
    ValidateMatches(registry, WellPlacedObject, [
      [],
      [],
      []
    ]);
  }

  lemma WellPlacedObjectExtensionChecked(registry: seq<Directive>)
    requires IsTestRegistry(registry)
    ensures Validate(registry, WellPlacedObjectExtension) == []
  {
    CheckDeclared(registry, WellPlacedObjectExtension[0], {OBJECT});
    ValidateMatches(registry, WellPlacedObjectExtension, [
      []
    ]);
  }

  lemma WellPlacedScalarChecked(registry: seq<Directive>)
    requires IsTestRegistry(registry)
    ensures Validate(registry, WellPlacedScalar) == []
  {
    CheckDeclared(registry, WellPlacedScalar[0], {SCALAR});
    CheckDeclared(registry, WellPlacedScalar[1], {SCALAR});
    ValidateMatches(registry, WellPlacedScalar, [
      [],
      []
    ]);
  }

  lemma WellPlacedInterfaceChecked(registry: seq<Directive>)
    requires IsTestRegistry(registry)
    ensures Validate(registry, WellPlacedInterface) == []
  {
    CheckDeclared(registry, WellPlacedInterface[0], {INTERFACE});
    CheckDeclared(registry, WellPlacedInterface[1], {ARGUMENT_DEFINITION});
    CheckDeclared(registry, WellPlacedInterface[2], {FIELD_DEFINITION});
    ValidateMatches(registry, WellPlacedInterface, [
      [],
      [],
      []
    ]);
  }

  lemma WellPlacedInterfaceExtensionChecked(registry: seq<Directive>)
    requires IsTestRegistry(registry)
    ensures Validate(registry, WellPlacedInterfaceExtension) == []
  {
    CheckDeclared(registry, WellPlacedInterfaceExtension[0], {INTERFACE});
    ValidateMatches(registry, WellPlacedInterfaceExtension, [
      []
    ]);
  }

  lemma WellPlacedUnionChecked(registry: seq<Directive>)
    requires IsTestRegistry(registry)
    ensures Validate(registry, WellPlacedUnion) == []
  {
    CheckDeclared(registry, WellPlacedUnion[0], {UNION});
    CheckDeclared(registry, WellPlacedUnion[1], {UNION});
    ValidateMatches(registry, WellPlacedUnion, [
      [],
      []
    ]);
  }

  lemma WellPlacedEnumChecked(registry: seq<Directive>)
    requires IsTestRegistry(registry)
    ensures Validate(registry, WellPlacedEnum) == []
  {
    CheckDeclared(registry, WellPlacedEnum[0], {ENUM});
    CheckDeclared(registry, WellPlacedEnum[1], {ENUM_VALUE});
    CheckDeclared(registry, WellPlacedEnum[2], {ENUM});
    ValidateMatches(registry, WellPlacedEnum, [
      [],
      [],
      []
    ]);
  }

  lemma WellPlacedInputChecked(registry: seq<Directive>)
    requires IsTestRegistry(registry)
    ensures Validate(registry, WellPlacedInput) == []
  {
    CheckDeclared(registry, WellPlacedInput[0], {INPUT_OBJECT});
    CheckDeclared(registry, WellPlacedInput[1], {INPUT_FIELD_DEFINITION});
    CheckDeclared(registry, WellPlacedInput[2], {INPUT_OBJECT});
    ValidateMatches(registry, WellPlacedInput, [
      [],
      [],
      []
    ]);
  }

  lemma WellPlacedSchemaChecked(registry: seq<Directive>)
    requires IsTestRegistry(registry)
    ensures Validate(registry, WellPlacedSchema) == []
  {
    CheckDeclared(registry, WellPlacedSchema[0], {SCHEMA});
    CheckDeclared(registry, WellPlacedSchema[1], {SCHEMA});
    ValidateMatches(registry, WellPlacedSchema, [
      [],
      []
    ]);
  }

  lemma WellPlacedSchemaLanguagePassFor(registry: seq<Directive>)
    requires IsTestRegistry(registry)
    ensures Validate(registry, WellPlacedSchemaLanguage) == []
  {
    WellPlacedObjectChecked(registry);
    WellPlacedObjectExtensionChecked(registry);
    WellPlacedScalarChecked(registry);
    WellPlacedInterfaceChecked(registry);
    WellPlacedInterfaceExtensionChecked(registry);
    WellPlacedUnionChecked(registry);
    WellPlacedEnumChecked(registry);
    WellPlacedInputChecked(registry);
    WellPlacedSchemaChecked(registry);
    ValidateAppend(registry, WellPlacedObject, WellPlacedObjectExtension);
    ValidateAppend(registry, WellPlacedObject + WellPlacedObjectExtension, WellPlacedScalar);
    ValidateAppend(registry, WellPlacedObject + WellPlacedObjectExtension + WellPlacedScalar, WellPlacedInterface);
    ValidateAppend(registry, WellPlacedObject + WellPlacedObjectExtension + WellPlacedScalar + WellPlacedInterface, WellPlacedInterfaceExtension);
    ValidateAppend(registry, WellPlacedObject + WellPlacedObjectExtension + WellPlacedScalar + WellPlacedInterface + WellPlacedInterfaceExtension, WellPlacedUnion);
    ValidateAppend(registry, WellPlacedObject + WellPlacedObjectExtension + WellPlacedScalar + WellPlacedInterface + WellPlacedInterfaceExtension + WellPlacedUnion, WellPlacedEnum);
    ValidateAppend(registry, WellPlacedObject + WellPlacedObjectExtension + WellPlacedScalar + WellPlacedInterface + WellPlacedInterfaceExtension + WellPlacedUnion + WellPlacedEnum, WellPlacedInput);
    ValidateAppend(registry, WellPlacedObject + WellPlacedObjectExtension + WellPlacedScalar + WellPlacedInterface + WellPlacedInterfaceExtension + WellPlacedUnion + WellPlacedEnum + WellPlacedInput, WellPlacedSchema);
  }

  /** KnownDirectives-test.js:143-186, within schema language, with well placed directives: every type-system location, on definitions and extensions alike, passes. */
  lemma WellPlacedSchemaLanguagePass()
    ensures Validate(Registry, WellPlacedSchemaLanguage) == []
  {
    RegistryIsTestRegistry();
    WellPlacedSchemaLanguagePassFor(Registry);
  }

  // KnownDirectives-test.js:188-260

  const MisplacedObject: seq<DirectiveUsage> := [
    Use("onInterface", ObjectTypeDefinition, 2, 43),
    Use("onInputFieldDefinition", InputValueDefinition(false), 3, 30),
    Use("onInputFieldDefinition", FieldDefinition, 3, 63)
  ]

  const MisplacedScalar: seq<DirectiveUsage> := [
    Use("onEnum", ScalarTypeDefinition, 6, 25)
  ]

  const MisplacedInterface: seq<DirectiveUsage> := [
    Use("onObject", InterfaceTypeDefinition, 8, 31),
    Use("onInputFieldDefinition", InputValueDefinition(false), 9, 30),
    Use("onInputFieldDefinition", FieldDefinition, 9, 63)
  ]

  const MisplacedUnion: seq<DirectiveUsage> := [
    Use("onEnumValue", UnionTypeDefinition, 12, 23)
  ]

  const MisplacedEnum: seq<DirectiveUsage> := [
    Use("onScalar", EnumTypeDefinition, 14, 21),
    Use("onUnion", EnumValueDefinition, 15, 20)
  ]

  const MisplacedInput: seq<DirectiveUsage> := [
    Use("onEnum", InputObjectTypeDefinition, 18, 23),
    Use("onArgumentDefinition", InputValueDefinition(true), 19, 24)
  ]

  const MisplacedSchema: seq<DirectiveUsage> := [
    Use("onObject", SchemaDefinition, 22, 16),
    Use("onObject", SchemaExtension, 26, 23)
  ]

  const MisplacedSchemaLanguage: seq<DirectiveUsage> := MisplacedObject + MisplacedScalar + MisplacedInterface + MisplacedUnion + MisplacedEnum + MisplacedInput + MisplacedSchema

  lemma MisplacedObjectChecked(registry: seq<Directive>)
    requires IsTestRegistry(registry)
    ensures Validate(registry, MisplacedObject) == [
      MisplacedDirective("onInterface", OBJECT, Position(2, 43)),
      MisplacedDirective("onInputFieldDefinition", ARGUMENT_DEFINITION, Position(3, 30)),
      MisplacedDirective("onInputFieldDefinition", FIELD_DEFINITION, Position(3, 63))
    ]
  {
    CheckDeclared(registry, MisplacedObject[0], {INTERFACE});
    CheckDeclared(registry, MisplacedObject[1], {INPUT_FIELD_DEFINITION});
    CheckDeclared(registry, MisplacedObject[2], {INPUT_FIELD_DEFINITION});
    ValidateMatches(registry, MisplacedObject, [
      [MisplacedDirective("onInterface", OBJECT, Position(2, 43))],
      [MisplacedDirective("onInputFieldDefinition", ARGUMENT_DEFINITION, Position(3, 30))],
      [MisplacedDirective("onInputFieldDefinition", FIELD_DEFINITION, Position(3, 63))]
    ]);
  }

  lemma MisplacedScalarChecked(registry: seq<Directive>)
    requires IsTestRegistry(registry)
    ensures Validate(registry, MisplacedScalar) == [
      MisplacedDirective("onEnum", SCALAR, Position(6, 25))
    ]
  {
    CheckDeclared(registry, MisplacedScalar[0], {ENUM});
    ValidateMatches(registry, MisplacedScalar, [
      [MisplacedDirective("onEnum", SCALAR, Position(6, 25))]
    ]);
  }

  lemma MisplacedInterfaceChecked(registry: seq<Directive>)
    requires IsTestRegistry(registry)
    ensures Validate(registry, MisplacedInterface) == [
      MisplacedDirective("onObject", INTERFACE, Position(8, 31)),
      MisplacedDirective("onInputFieldDefinition", ARGUMENT_DEFINITION, Position(9, 30)),
      MisplacedDirective("onInputFieldDefinition", FIELD_DEFINITION, Position(9, 63))
    ]
  {
    CheckDeclared(registry, MisplacedInterface[0], {OBJECT});
    CheckDeclared(registry, MisplacedInterface[1], {INPUT_FIELD_DEFINITION});
    CheckDeclared(registry, MisplacedInterface[2], {INPUT_FIELD_DEFINITION});
    ValidateMatches(registry, MisplacedInterface, [
      [MisplacedDirective("onObject", INTERFACE, Position(8, 31))],
      [MisplacedDirective("onInputFieldDefinition", ARGUMENT_DEFINITION, Position(9, 30))],
      [MisplacedDirective("onInputFieldDefinition", FIELD_DEFINITION, Position(9, 63))]
    ]);
  }

  lemma MisplacedUnionChecked(registry: seq<Directive>)
    requires IsTestRegistry(registry)
    ensures Validate(registry, MisplacedUnion) == [
      MisplacedDirective("onEnumValue", UNION, Position(12, 23))
    ]
  {
    CheckDeclared(registry, MisplacedUnion[0], {ENUM_VALUE});
    ValidateMatches(registry, MisplacedUnion, [
      [MisplacedDirective("onEnumValue", UNION, Position(12, 23))]
    ]);
  }

  lemma MisplacedEnumChecked(registry: seq<Directive>)
    requires IsTestRegistry(registry)
    ensures Validate(registry, MisplacedEnum) == [
      MisplacedDirective("onScalar", ENUM, Position(14, 21)),
      MisplacedDirective("onUnion", ENUM_VALUE, Position(15, 20))
    ]
  {
    CheckDeclared(registry, MisplacedEnum[0], {SCALAR});
    CheckDeclared(registry, MisplacedEnum[1], {UNION});
    ValidateMatches(registry, MisplacedEnum, [
      [MisplacedDirective("onScalar", ENUM, Position(14, 21))],
      [MisplacedDirective("onUnion", ENUM_VALUE, Position(15, 20))]
    ]);
  }

  lemma MisplacedInputChecked(registry: seq<Directive>)
    requires IsTestRegistry(registry)
    ensures Validate(registry, MisplacedInput) == [
      MisplacedDirective("onEnum", INPUT_OBJECT, Position(18, 23)),
      MisplacedDirective("onArgumentDefinition", INPUT_FIELD_DEFINITION, Position(19, 24))
    ]
  {
    CheckDeclared(registry, MisplacedInput[0], {ENUM});
    CheckDeclared(registry, MisplacedInput[1], {ARGUMENT_DEFINITION});
    ValidateMatches(registry, MisplacedInput, [
      [MisplacedDirective("onEnum", INPUT_OBJECT, Position(18, 23))],
      [MisplacedDirective("onArgumentDefinition", INPUT_FIELD_DEFINITION, Position(19, 24))]
    ]);
  }

  lemma MisplacedSchemaChecked(registry: seq<Directive>)
    requires IsTestRegistry(registry)
    ensures Validate(registry, MisplacedSchema) == [
      MisplacedDirective("onObject", SCHEMA, Position(22, 16)),
      MisplacedDirective("onObject", SCHEMA, Position(26, 23))
    ]
  {
    CheckDeclared(registry, MisplacedSchema[0], {OBJECT});
    CheckDeclared(registry, MisplacedSchema[1], {OBJECT});
    ValidateMatches(registry, MisplacedSchema, [
      [MisplacedDirective("onObject", SCHEMA, Position(22, 16))],
      [MisplacedDirective("onObject", SCHEMA, Position(26, 23))]
    ]);
  }

  lemma MisplacedSchemaLanguageReportedFor(registry: seq<Directive>)
    requires IsTestRegistry(registry)
    ensures Validate(registry, MisplacedSchemaLanguage) == [
      MisplacedDirective("onInterface", OBJECT, Position(2, 43)),
      MisplacedDirective("onInputFieldDefinition", ARGUMENT_DEFINITION, Position(3, 30)),
      MisplacedDirective("onInputFieldDefinition", FIELD_DEFINITION, Position(3, 63))
    ] + [
      MisplacedDirective("onEnum", SCALAR, Position(6, 25))
    ] + [
      MisplacedDirective("onObject", INTERFACE, Position(8, 31)),
      MisplacedDirective("onInputFieldDefinition", ARGUMENT_DEFINITION, Position(9, 30)),
      MisplacedDirective("onInputFieldDefinition", FIELD_DEFINITION, Position(9, 63))
    ] + [
      MisplacedDirective("onEnumValue", UNION, Position(12, 23))
    ] + [
      MisplacedDirective("onScalar", ENUM, Position(14, 21)),
      MisplacedDirective("onUnion", ENUM_VALUE, Position(15, 20))
    ] + [
      MisplacedDirective("onEnum", INPUT_OBJECT, Position(18, 23)),
      MisplacedDirective("onArgumentDefinition", INPUT_FIELD_DEFINITION, Position(19, 24))
    ] + [
      MisplacedDirective("onObject", SCHEMA, Position(22, 16)),
      MisplacedDirective("onObject", SCHEMA, Position(26, 23))
    ]
  {
    MisplacedObjectChecked(registry);
    MisplacedScalarChecked(registry);
    MisplacedInterfaceChecked(registry);
    MisplacedUnionChecked(registry);
    MisplacedEnumChecked(registry);
    MisplacedInputChecked(registry);
    MisplacedSchemaChecked(registry);
    ValidateAppend(registry, MisplacedObject, MisplacedScalar);
    ValidateAppend(registry, MisplacedObject + MisplacedScalar, MisplacedInterface);
    ValidateAppend(registry, MisplacedObject + MisplacedScalar + MisplacedInterface, MisplacedUnion);
    ValidateAppend(registry, MisplacedObject + MisplacedScalar + MisplacedInterface + MisplacedUnion, MisplacedEnum);
    ValidateAppend(registry, MisplacedObject + MisplacedScalar + MisplacedInterface + MisplacedUnion + MisplacedEnum, MisplacedInput);
    ValidateAppend(registry, MisplacedObject + MisplacedScalar + MisplacedInterface + MisplacedUnion + MisplacedEnum + MisplacedInput, MisplacedSchema);
  }

  /** KnownDirectives-test.js:188-260, within schema language, with misplaced directives: every misplaced usage is reported, the schema extension included. */
  lemma MisplacedSchemaLanguageReported()
    ensures Validate(Registry, MisplacedSchemaLanguage) == [
      MisplacedDirective("onInterface", OBJECT, Position(2, 43)),
      MisplacedDirective("onInputFieldDefinition", ARGUMENT_DEFINITION, Position(3, 30)),
      MisplacedDirective("onInputFieldDefinition", FIELD_DEFINITION, Position(3, 63))
    ] + [
      MisplacedDirective("onEnum", SCALAR, Position(6, 25))
    ] + [
      MisplacedDirective("onObject", INTERFACE, Position(8, 31)),
      MisplacedDirective("onInputFieldDefinition", ARGUMENT_DEFINITION, Position(9, 30)),
      MisplacedDirective("onInputFieldDefinition", FIELD_DEFINITION, Position(9, 63))
    ] + [
      MisplacedDirective("onEnumValue", UNION, Position(12, 23))
    ] + [
      MisplacedDirective("onScalar", ENUM, Position(14, 21)),
      MisplacedDirective("onUnion", ENUM_VALUE, Position(15, 20))
    ] + [
      MisplacedDirective("onEnum", INPUT_OBJECT, Position(18, 23)),
      MisplacedDirective("onArgumentDefinition", INPUT_FIELD_DEFINITION, Position(19, 24))
    ] + [
      MisplacedDirective("onObject", SCHEMA, Position(22, 16)),
      MisplacedDirective("onObject", SCHEMA, Position(26, 23))
    ]
  {
    RegistryIsTestRegistry();
    MisplacedSchemaLanguageReportedFor(Registry);
  }
}
