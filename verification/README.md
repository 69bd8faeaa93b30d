# Schema extension and directive placement, modelled in Dafny

This project models two parts of graphql-js.

The first is `extendSchema`, which takes a schema and a parsed document and returns either the input schema, a new schema with the document's types, object extensions and directives merged in, or an error. It works in two passes:

- **First pass.** One loop files each top-level definition into three tables: new type definitions, object-type extensions grouped by target, and new directive definitions. It throws at the first definition that conflicts with the schema.
- **Fast path.** If the tables are empty, it returns the input schema itself.
- **Second pass.** A definition builder rebuilds every original type, then every new type, re-resolving each type reference by name:
  - an object type gains its extensions' interfaces and fields;
  - an interface type has its fields re-resolved;
  - a union type has its members re-resolved;
  - scalar, enum and input-object types are returned as they are.

  The result lists the original types first, then the new type names. It lists the original directives first, then the new ones.

The second is the directive-placement validation rule, KnownDirectives. Every `@name` written in a document must name a registered directive. The rule reports an unknown directive otherwise. The directive must also be declared for the location of the node it is written on; the rule reports a misplaced directive, with that location, otherwise. Diagnostics accumulate in document order, and validation never stops early.

## Layout

- `wrappers.dfy`: module `Wrappers`. `Option`, and `Result` with early return through `:-`.
- `types.dfy`: module `Types`. The type-system data model:
  - the 19 directive locations;
  - type references as names wrapped in List and NonNull;
  - fields and input values;
  - the six named-type kinds, with a schema as the key order of its type map plus the name-keyed map;
  - the error kinds;
  - the consistency predicate `WellFormed`.
- `language.dfy`: module `Language`. What a parsed document hands to the core:
  - the top-level definitions `extendSchema` acts on;
  - the node kinds a directive may sit on;
  - directive usages with their positions.
- `extend_partition.dfy`: module `ExtendPartition`. The first pass as a left fold that stops at the first conflict. Also the loop as a method, and reference definitions of each table written as filters over the document.
- `extend_types.dfy`: module `ExtendTypes`. The second pass:
  - name resolution;
  - `extendFieldType`, `extendFieldMap` and `extendImplementedInterfaces`;
  - `extendType`;
  - the rebuild of all types and the new directives.
- `extend_types_facts.dfy`: module `ExtendTypesFacts`. What the second pass guarantees about one type.
- `extend_schema.dfy`: module `ExtendSchema`. `Extend` and its schema-level guarantees.
- `known_directives.dfy`: module `KnownDirectives`. The location classifier, the directive lookup, the per-usage check, the fold, and their properties.
- `known_directives_cases.dfy`: module `KnownDirectivesCases`. The registry the rule's tests validate against, and the test documents as usage lists with the diagnostics each one yields.

## Decisions

- **Types form a graph indexed by name.** Every reference is a type name. "Re-resolving" a reference keeps the name and checks that something defines it: a new type definition first, then the original schema. The source promises one instance per name. In this model that promise becomes `WellFormed`: every reference names a type of the result.
- **Which name-resolution error is raised.** An unresolvable name written in the document raises `UnknownType` (lines 133-134). One reached from the original schema, which carries no AST node, raises `MissingType` (line 136).
- **Error kinds stand for messages.** Each error kind stands for the source's message, which is not modelled as text.
- **Where the code and the prose description disagree, the model follows the code:**
  - Scalar, enum and input-object types are returned as the very same value (line 200), not as copies.
  - Two new directive definitions with the same name are both accepted. Each is checked only against the original schema (lines 110-116).
  - Two new type definitions with the same name do not fail. The later one replaces the earlier one (line 89).
  - The location enumeration has 19 values: the 18 of section 3.13 of the GraphQL specification (June 2018), plus `VARIABLE_DEFINITION`, which the rule's tests use (KnownDirectives-test.js:105, :133).
- **Only object types can be extended.** Interface, union, enum, scalar, input-object and schema extensions are other definitions, which the first pass ignores (lines 76-118).
- **Adding an extension field.** The check is only against the ORIGINAL field names (line 292). A later extension field therefore replaces an earlier extension field of the same name. `Put` models the assignment into the field map: an existing key is replaced in place, and a new key is appended.
- **Adding an extension interface.** The check is against the growing list (line 256). An interface added twice by extensions therefore fails.
- **The KnownDirectives rule's source is not part of this model.** Its behaviour is taken from `src/validation/__tests__/KnownDirectives-test.js`:
  - An argument definition and an input-field definition are the same AST node kind. The model's node kind carries whether the enclosing type is an input object.
  - The test schema's directive registry is not part of this model either. It is rebuilt from the directive names the tests use (`onQuery`, `onField`, …, each declared for the location in its name), plus `include` and `skip` on fields, fragment spreads and inline fragments.

## Model

| member | source | states |
|---|---|---|
| ExtendPartition.PartitionFits | utilities/extendSchema.js:74-119 | After a successful first pass, the tables fit the schema in these ways: (1) no new type name is already a schema type, and each table entry sits under its own name; (2) the first-definition order lists each new type name exactly once; (3) extensions are filed only under object types of the schema, each list is non-empty and each entry targets its key; (4) no new directive name is a schema directive. |
| ExtendPartition.PartitionFailsAtFirstConflict | utilities/extendSchema.js:74-119 | The first pass fails exactly when some definition conflicts with the schema, and then with the error of the FIRST such definition in document order. |
| ExtendPartition.PartitionTypeDefs | utilities/extendSchema.js:77-90 | The new-type table holds exactly the names the document defines, each with its LAST definition in the document. |
| ExtendPartition.PartitionExtensions | utilities/extendSchema.js:91-109 | A name has an extension list exactly when the document extends it, and the list is that name's extensions in document order. |
| ExtendPartition.PartitionDirectives | utilities/extendSchema.js:110-117 | The new directives are the document's directive definitions in document order, equal to an independent filter over the document. |
| ExtendPartition.PartitionOfOthers | utilities/extendSchema.js:74-119 | A document of definitions the engine does not act on leaves every table empty and cannot fail. |
| ExtendPartition.NothingAddedIff | utilities/extendSchema.js:121-125 | After a successful first pass, the tables are empty exactly when every definition is one the engine does not act on. |
| ExtendPartition.PartitionDocument | utilities/extendSchema.js:74-119 | The loop that throws at the first conflict computes the same result as the fold. |
| ExtendPartition.PartitionStopsAtFailure | utilities/extendSchema.js:74-119 | Once a prefix of the document fails, the whole document fails with the same error; nothing after a throw is looked at. |
| ExtendTypes.ExtendFieldType | utilities/extendSchema.js:303-311 | Re-resolving a wrapped type reference succeeds exactly when its innermost name is defined, and then returns the same wrapper chain. Otherwise it fails with the unknown-type or missing-type error for that name. |
| ExtendTypes.ResolveNames | utilities/extendSchema.js:237-245 | A list of type names, such as a union's members, resolves exactly when every name is defined, and then is unchanged. |
| ExtendTypes.BuildField | utilities/extendSchema.js:295 | Building an extension field succeeds exactly when its type and every argument type resolve, and yields the field as written. |
| ExtendTypes.ExtendOldFields | utilities/extendSchema.js:270-284 | Copying the original fields succeeds exactly when every field type resolves, and then keeps the fields, with their arguments and payloads, in order. |
| ExtendTypes.Put | utilities/extendSchema.js:295 | Assigning a field into the field map keeps the same key set plus the new name, and replaces an entry of the same name in place. Otherwise it appends at the end. It leaves every other entry where it was and keeps names unique. |
| ExtendTypes.ExtendType | utilities/extendSchema.js:190-201 | A rebuilt type keeps its kind, name and payload. |
| ExtendTypes.BuildNewType | utilities/extendSchema.js:155-158 | A new type definition builds exactly when every name it mentions resolves, and then is the definition itself. |
| ExtendTypes.RebuildTypes | utilities/extendSchema.js:148-158 | On success, the rebuilt map has exactly the listed names as keys, and each entry is what the builder makes of that name. |
| ExtendTypes.BuildDirectives | utilities/extendSchema.js:173-181 | The new directives build exactly when every argument type resolves, and then are the definitions themselves, in order. |
| ExtendTypesFacts.PutNames | utilities/extendSchema.js:295 | Assigning a field keeps the key order of the field map, and appends the name at the end exactly when it is new. |
| ExtendTypesFacts.AddExtensionFieldsOrder | utilities/extendSchema.js:286-298 | Adding extension fields keeps the existing key order and appends each new name once, in the order it first occurs among the added fields (the `FirstNewNames` reference). |
| ExtendTypesFacts.AddExtensionFieldsSucceedsIff | utilities/extendSchema.js:286-298 | Adding extension fields succeeds exactly when no added field name is an original field name and every added field's types resolve. |
| ExtendTypesFacts.ExtendFieldMapRejectsOriginalName | utilities/extendSchema.js:290-294 | An extension field whose name is an original field name makes the field-map merge fail. |
| ExtendTypesFacts.ExtendFieldMapSucceedsIff | utilities/extendSchema.js:269-301 | The merge succeeds exactly when every original field type resolves, no added name is original, and every added field resolves. |
| ExtendTypesFacts.ExtendFieldMapResult | utilities/extendSchema.js:269-301 | The merged field map has the original fields as an unchanged prefix. Its names are the original names plus the extension field names, with no repeats. Every later entry is the LAST extension field of its name. The appended names are the new extension field names, each once, in the order of their first occurrence. |
| ExtendTypesFacts.AddInterfacesSpec | utilities/extendSchema.js:253-262 | Appending interfaces succeeds exactly when every added name resolves, none is already in the list and none repeats. The result is the list followed by the added names. |
| ExtendTypesFacts.ExtendImplementedInterfacesSpec | utilities/extendSchema.js:247-267 | An object's interfaces are the original ones then every extension's interfaces in order. The merge fails exactly on an unknown name, an already-implemented name, or a name added twice. |
| ExtendTypesFacts.ExtendObjectType | utilities/extendSchema.js:203-223 | A rebuilt object type grows its interfaces by the extensions' interfaces. It records every extension node, an empty extension included. Its fields keep the original fields as a prefix and gain every extension field name, still without repeats, appended in the order each name first occurs among the extensions. |
| ExtendTypesFacts.UnextendedTypeUnchanged | utilities/extendSchema.js:190-245 | A type that no extension targets, and whose references resolve, is rebuilt as exactly itself. |
| ExtendSchema.Extend | utilities/extendSchema.js:61-168 | A first-pass error is the result. On success, the roots are the original roots, and the original type list is a prefix of the result's type list. |
| ExtendSchema.ExtendFailsAtFirstConflict | utilities/extendSchema.js:74-119 | Extension fails with the error of the first conflicting definition in document order. |
| ExtendSchema.ExtendRejectsExistingTypeName | utilities/extendSchema.js:85-88 | A type definition whose name the schema has makes extension fail, with the duplicate-type error when no earlier definition conflicts. |
| ExtendSchema.ExtendRejectsMissingTarget | utilities/extendSchema.js:94-98 | Extending a type the schema lacks makes extension fail, with the unknown-target error when no earlier definition conflicts. |
| ExtendSchema.ExtendRejectsNonObjectTarget | utilities/extendSchema.js:99-101 | Extending a non-object type makes extension fail, with the non-object error when no earlier definition conflicts. |
| ExtendSchema.ExtendRejectsExistingDirective | utilities/extendSchema.js:110-115 | A directive definition whose name the schema has makes extension fail, with the duplicate-directive error when no earlier definition conflicts. |
| ExtendSchema.ExtendNoOp | utilities/extendSchema.js:121-125 | A document with nothing to add returns the input schema itself. |
| ExtendSchema.ExtendChangesIffContributes | utilities/extendSchema.js:121-125 | On success, the result equals the input schema exactly when every definition is one the engine does not act on. An empty object extension counts as a change. |
| ExtendSchema.ExtendDirectives | utilities/extendSchema.js:173-181 | The result's directives are the original directives followed by the document's directive definitions in document order. |
| ExtendSchema.RebuildTypesFails | utilities/extendSchema.js:148-158 | One type that fails to rebuild makes the whole rebuild fail. |
| ExtendSchema.ExtendRejectsExistingField | utilities/extendSchema.js:286-294 | An extension field named like a field of its target makes the whole extension fail. |
| ExtendSchema.ExtendRejectsImplementedInterface | utilities/extendSchema.js:251-260 | An extension interface the target already implements makes the whole extension fail. |
| ExtendSchema.ExtendTypeConsistent | utilities/extendSchema.js:190-245 | A rebuilt type of a consistent schema keeps unique field names and refers only to names the builder knows. |
| ExtendSchema.ExtendWellFormed | utilities/extendSchema.js:139-168 | Extending a consistent schema, with new types that have unique field names, gives a consistent schema: (1) the type list has no repeats and matches the map; (2) every type sits under its own name with unique field names; (3) every reference in a type, root or directive argument names a type of the result. |
| ExtendSchema.ExtendKeepsOriginalTypes | utilities/extendSchema.js:148-153 | Every original type is in the result with the same name and kind. One that no extension targets is unchanged. |
| ExtendSchema.ExtendAddsNewTypes | utilities/extendSchema.js:155-158 | Every type the document defines is in the result, as its last definition in the document. |
| ExtendSchema.ExtendObjectInSchema | utilities/extendSchema.js:203-223 | An extended object type of the result has these properties: (1) its interfaces are the original ones then the extensions' interfaces in document order; (2) its extension nodes grow by the extensions; (3) its fields keep the original fields as a prefix and gain every extension field name, appended in the order each name first occurs among the extensions. |
| KnownDirectives.Classify | src/validation/__tests__/KnownDirectives-test.js:101-260 | A node is classified to an executable location exactly when it is a node of an executable document. |
| KnownDirectives.ClassifySeparatesKinds | src/validation/__tests__/KnownDirectives-test.js:143-260 | Two node kinds share a location exactly when they are the same kind once extensions are read as their definitions. Argument, field and input-field definitions stay apart. |
| KnownDirectives.ClassifyOnto | src/validation/__tests__/KnownDirectives-test.js:101-260 | Every one of the 19 locations is the location of some node kind. |
| KnownDirectives.LookupSound | src/validation/__tests__/KnownDirectives-test.js:63-99 | The lookup finds a directive exactly when the registry has one of that name, and what it finds is a registered directive of that name. |
| KnownDirectives.CheckUsageSpec | src/validation/__tests__/KnownDirectives-test.js:63-140 | One usage yields no report exactly when it is accepted (registered, and declared for its node's location). Otherwise it yields exactly one report, naming its directive and position: unknown exactly when the name is unregistered, otherwise misplaced, with the node's location. |
| KnownDirectives.ValidateReportsRejected | src/validation/__tests__/KnownDirectives-test.js:63-140 | There is exactly one diagnostic per rejected usage, in document order. Each names that usage's directive and position. It is unknown exactly when the name is unregistered, and otherwise misplaced, with the node's location. |
| KnownDirectives.ValidatePassesIff | src/validation/__tests__/KnownDirectives-test.js:47-61 | A document passes exactly when every usage is registered and declared for its location. |
| KnownDirectives.ValidateAppend | src/validation/__tests__/KnownDirectives-test.js:77-99 | The diagnostics of a document are those of its first part followed by those of the rest: validation never stops early. |
| KnownDirectives.ValidateAllUnknown | src/validation/__tests__/KnownDirectives-test.js:77-99 | When no usage names a registered directive, there is one unknown-directive report per usage, at that usage, in order. |
| KnownDirectives.ValidateDocument | src/validation/__tests__/KnownDirectives-test.js:47-140 | The walk that appends each usage's reports to the context computes exactly the fold's diagnostics. |
| KnownDirectivesCases.KnownDirectivesPass | src/validation/__tests__/KnownDirectives-test.js:47-61 | `include` at 3:13 and `skip` at 6:15, both on fields, pass. |
| KnownDirectivesCases.UnknownDirectiveReported | src/validation/__tests__/KnownDirectives-test.js:63-75 | One undeclared directive is reported once, as unknown, at 3:13. |
| KnownDirectivesCases.ManyUnknownDirectivesReported | src/validation/__tests__/KnownDirectives-test.js:77-99 | Three undeclared usages are reported as unknown at 3:13, 6:15 and 8:16, in that order. |
| KnownDirectivesCases.WellPlacedExecutablePass | src/validation/__tests__/KnownDirectives-test.js:101-117 | Directives on a variable definition, a query, fields, fragment spreads and a mutation, each declared for its location, pass. |
| KnownDirectivesCases.MisplacedExecutableReported | src/validation/__tests__/KnownDirectives-test.js:119-140 | The misplaced usages of the executable document are reported with the locations they stand at, in document order, and the well-placed one adds nothing. |
| KnownDirectivesCases.WellPlacedSchemaLanguagePass | src/validation/__tests__/KnownDirectives-test.js:143-186 | Every type-system location, on definitions and extensions alike, passes. |
| KnownDirectivesCases.MisplacedSchemaLanguageReported | src/validation/__tests__/KnownDirectives-test.js:188-260 | Every misplaced usage of the schema document is reported with its location and position, the schema extension included, in document order. |

## Left out

- Argument checks and the assertion that the input really is a schema and a document (lines 62-64) are not modelled. The types guarantee both.
- The `options` argument and the definition builder's internals (utilities/buildASTSchema.js) are not part of this model. A new type definition is represented by the type the builder makes of it, and `BuildNewType` records only that its names are resolved by the same lookup.
- The lazy thunks for interfaces and fields (lines 213-218) are not modelled: the second pass is eager. Where several rebuild conflicts exist, which error the source raises first depends on the order in which the schema constructor forces those thunks. The model checks types in list order, and for an object type its interfaces before its fields.
- The `GraphQLSchema` constructor's own validation is not part of this model. The result is a plain value; its consistency is stated by `ExtendWellFormed`.
- Object identity and the builder's cache are not modelled. In a graph whose references are names, "one instance per name" becomes "every reference names a type of the result".
- Descriptions, deprecation reasons, resolvers, `isTypeOf`, `resolveType` and AST back-references are one opaque payload. It is copied and never inspected.
- Error messages and error node lists are not modelled; the error kind stands for the message.
- Parsing and source positions are not modelled. A document reaches the extension engine as its list of top-level definitions. It reaches the validator as the directive usages of a depth-first, left-to-right walk, with positions taken from the test documents.
- Directive arguments, such as the `if:` of `include` and `skip`, are not modelled on usages, and the test registry declares none. The rule reads only names and locations.
- The "with no directives" test (KnownDirectives-test.js:31-45) has no directive usages. Its outcome, no diagnostics for an empty list, is the first case of `Validate` and needs no lemma.
- The key order the `GraphQLSchema` constructor gives the new schema's type map is not modelled. The constructor walks outward from the root types. The result's `typeNames` is instead the list handed to the constructor (lines 150-168): original names in the original key order, then new names. A later extension of the result would rebuild in that order.
- ExtendSchema.Extend: the function's own contract states only the roots and the type-list prefix. The remaining promises are stated by the lemmas `ExtendDirectives`, `ExtendKeepsOriginalTypes`, `ExtendAddsNewTypes`, `ExtendObjectInSchema` and `ExtendWellFormed`.
- ExtendSchema.ExtendWellFormed: the new type definitions are required to have unique field names. The parser and the definition builder guarantee this, and neither is part of this model.
