/**
 * The rebuild pass of schema extension (utilities/extendSchema.js, lines
 * 127-137 and 183-311): every type is rebuilt against a builder that
 * resolves a name to a newly defined type or to the original schema's type,
 * and object types absorb the fields and interfaces of their extensions.
 *
 * Types refer to each other by name, so re-resolving a reference through the
 * builder keeps the name and only checks that something answers to it; the
 * source's thunks and per-call cache, which exist to build a cyclic object
 * graph once, have no counterpart here.
 */
module ExtendTypes {
  import opened Wrappers
  import opened Types
  import opened ExtendPartition

  /** The builder of one extension call: the original schema and the first pass's tables. */
  datatype Builder = Builder(schema: Schema, tables: Tables)

  /** The names the builder answers: new definitions, then the original schema. */
  function Known(b: Builder): set<string> {
    b.tables.typeDefs.Keys + b.schema.types.Keys
  }

  /**
   * The error for a name nobody defines: a name written in the document is
   * reported as unknown (line 133-134); one reached from the original
   * schema, which carries no AST node, as missing (line 136).
   */
  function ResolveError(n: string, fromDocument: bool): SchemaError {
    if fromDocument then UnknownType(n) else MissingType(n)
  }

  function ResolveName(b: Builder, n: string, fromDocument: bool): Result<string, SchemaError> {
    if n in Known(b) then Success(n) else Failure(ResolveError(n, fromDocument))
  }

  /**
   * Re-resolves a field's type (lines 303-311): List and NonNull wrappers
   * are rebuilt one for one and only the innermost named type is looked up.
   */
  function ExtendFieldType(b: Builder, t: TypeRef, fromDocument: bool): (r: Result<TypeRef, SchemaError>)
    ensures r.Success? <==> Innermost(t) in Known(b)
    ensures r.Success? ==> r.value == t
    ensures r.Failure? ==> r.error == ResolveError(Innermost(t), fromDocument)
  {
    match t
    case ListOf(inner) =>
      var i :- ExtendFieldType(b, inner, fromDocument);
      Success(ListOf(i))
    case NonNull(inner) =>
      var i :- ExtendFieldType(b, inner, fromDocument);
      Success(NonNull(i))
    case Named(n) =>
      var m :- ResolveName(b, n, fromDocument);
      Success(Named(m))
  }

  /** Resolves a list of type names in order, stopping at the first that nothing defines. */
  function ResolveNames(b: Builder, names: seq<string>, fromDocument: bool): (r: Result<seq<string>, SchemaError>)
    ensures r.Success? <==> NamesIn(names, Known(b))
    ensures r.Success? ==> r.value == names
  {
    if |names| == 0 then Success([])
    else
      var first :- ResolveName(b, names[0], fromDocument);
      var rest :- ResolveNames(b, names[1..], fromDocument);
      Success([first] + rest)
  }

  /** Resolves the types of arguments or input fields written in the document. */
  function BuildInputValues(b: Builder, values: seq<InputValue>): (r: Result<seq<InputValue>, SchemaError>)
    ensures r.Success? <==> InputValuesIn(values, Known(b))
    ensures r.Success? ==> r.value == values
  {
    if |values| == 0 then Success([])
    else
      var t :- ExtendFieldType(b, values[0].valueType, true);
      var rest :- BuildInputValues(b, values[1..]);
      Success([values[0].(valueType := t)] + rest)
  }

  /** Builds a field written in the document: its type, then its arguments, resolve by name. */
  function BuildField(b: Builder, f: Field): (r: Result<Field, SchemaError>)
    ensures r.Success? <==> FieldRefsIn(f, Known(b))
    ensures r.Success? ==> r.value == f
  {
    var t :- ExtendFieldType(b, f.fieldType, true);
    var args :- BuildInputValues(b, f.args);
    Success(f.(fieldType := t, args := args))
  }

  /** Builds the fields of a new type definition, in order. */
  function BuildFields(b: Builder, fields: seq<Field>): (r: Result<seq<Field>, SchemaError>)
    ensures r.Success? <==> FieldsIn(fields, Known(b))
    ensures r.Success? ==> r.value == fields
  {
    if |fields| == 0 then Success([])
    else
      var f :- BuildField(b, fields[0]);
      var rest :- BuildFields(b, fields[1..]);
      Success([f] + rest)
  }

  /**
   * Copies the original fields (lines 272-284): the type is re-resolved,
   * arguments and the opaque payload are kept as they are.
   */
  function ExtendOldFields(b: Builder, fields: seq<Field>): (r: Result<seq<Field>, SchemaError>)
    ensures r.Success? <==> forall i :: 0 <= i < |fields| ==> Innermost(fields[i].fieldType) in Known(b)
    ensures r.Success? ==> r.value == fields
  {
    if |fields| == 0 then Success([])
    else
      var t :- ExtendFieldType(b, fields[0].fieldType, false);
      var rest :- ExtendOldFields(b, fields[1..]);
      Success([fields[0].(fieldType := t)] + rest)
  }

  /** The position of the first field named `name`, or the length when there is none. */
  function IndexOfName(fields: seq<Field>, name: string): (i: nat)
    ensures i <= |fields|
    ensures i < |fields| ==> fields[i].name == name
    ensures forall j :: 0 <= j < i ==> fields[j].name != name
  {
    if |fields| == 0 || fields[0].name == name then 0 else 1 + IndexOfName(fields[1..], name)
  }

  /**
   * Assignment into a field map keyed by name, with the insertion order of
   * a script object: an existing key keeps its position and takes the new
   * field, a new key goes at the end.
   */
  function Put(fields: seq<Field>, f: Field): (r: seq<Field>)
    ensures FieldNames(r) == FieldNames(fields) + {f.name}
    ensures f.name !in FieldNames(fields) ==> r == fields + [f]
    ensures |fields| <= |r|
    ensures forall i :: 0 <= i < |fields| && fields[i].name != f.name ==> r[i] == fields[i]
    ensures DistinctFieldNames(fields) ==>
      forall i :: 0 <= i < |fields| ==> r[i] == (if fields[i].name == f.name then f else fields[i])
    ensures forall i :: |fields| <= i < |r| ==> r[i] == f
    ensures DistinctFieldNames(fields) ==> DistinctFieldNames(r)
  {
    var i := IndexOfName(fields, f.name);
    if i < |fields| then
      FieldNamesReplace(fields, i, f);
      fields[i := f]
    else
      assert f.name !in FieldNames(fields);
      fields + [f]
  }

  lemma FieldNamesReplace(fields: seq<Field>, i: nat, f: Field)
    requires i < |fields| && fields[i].name == f.name
    ensures FieldNames(fields[i := f]) == FieldNames(fields)
  {
    var r := fields[i := f];
    forall x | x in FieldNames(r) ensures x in FieldNames(fields) {
      var j :| 0 <= j < |r| && r[j].name == x;
      assert fields[j].name == x;
    }
    forall x | x in FieldNames(fields) ensures x in FieldNames(r) {
      var j :| 0 <= j < |fields| && fields[j].name == x;
      assert r[j].name == x;
    }
  }

  /** All fields the extensions add, extension by extension. */
  function AllFields(exts: seq<ObjectExtension>): seq<Field> {
    if |exts| == 0 then [] else exts[0].fields + AllFields(exts[1..])
  }

  /** All interfaces the extensions add, extension by extension. */
  function AllInterfaces(exts: seq<ObjectExtension>): seq<string> {
    if |exts| == 0 then [] else exts[0].interfaces + AllInterfaces(exts[1..])
  }

  /**
   * Adds extension fields one by one (lines 286-298). A field whose name is
   * an ORIGINAL field name fails; the growing map is not consulted, so a
   * later extension field replaces an earlier one of the same name.
   */
  function AddExtensionFields(b: Builder, typeName: string, oldNames: set<string>,
                              acc: seq<Field>, added: seq<Field>): Result<seq<Field>, SchemaError>
    decreases |added|
  {
    if |added| == 0 then Success(acc)
    else if added[0].name in oldNames then Failure(DuplicateField(typeName, added[0].name))
    else
      var f :- BuildField(b, added[0]);
      AddExtensionFields(b, typeName, oldNames, Put(acc, f), added[1..])
  }

  /** The merged field map of an object or interface type (lines 269-301). */
  function ExtendFieldMap(b: Builder, typeName: string, original: seq<Field>, exts: seq<ObjectExtension>)
    : Result<seq<Field>, SchemaError>
  {
    var base :- ExtendOldFields(b, original);
    AddExtensionFields(b, typeName, FieldNames(original), base, AllFields(exts))
  }

  /**
   * Appends extension interfaces one by one (lines 250-264); a name already
   * in the growing list, original or appended, fails.
   */
  function AddInterfaces(b: Builder, typeName: string, acc: seq<string>, added: seq<string>)
    : Result<seq<string>, SchemaError>
    decreases |added|
  {
    if |added| == 0 then Success(acc)
    else if added[0] in acc then Failure(DuplicateInterface(typeName, added[0]))
    else
      var i :- ResolveName(b, added[0], true);
      AddInterfaces(b, typeName, acc + [i], added[1..])
  }

  /** The interface list of an extended object type (lines 247-267). */
  function ExtendImplementedInterfaces(b: Builder, typeName: string, original: seq<string>, exts: seq<ObjectExtension>)
    : Result<seq<string>, SchemaError>
  {
    var base :- ResolveNames(b, original, false);
    AddInterfaces(b, typeName, base, AllInterfaces(exts))
  }

  /** The extensions the first pass collected for `n`. */
  function ExtensionsFor(b: Builder, n: string): seq<ObjectExtension> {
    if n in b.tables.extensions then b.tables.extensions[n] else []
  }

  predicate SameKind(a: NamedType, t: NamedType) {
    && (a.ScalarType? <==> t.ScalarType?)
    && (a.ObjectType? <==> t.ObjectType?)
    && (a.InterfaceType? <==> t.InterfaceType?)
    && (a.UnionType? <==> t.UnionType?)
    && (a.EnumType? <==> t.EnumType?)
    && (a.InputObjectType? <==> t.InputObjectType?)
  }

  /**
   * Rebuilds a type of the original schema (lines 190-245). Objects take
   * their extensions' interfaces (read first, as schema construction does)
   * and fields and record the extension nodes; interfaces merge fields;
   * union members are re-resolved; scalars, enums and input objects are
   * returned as they are.
   */
  function ExtendType(b: Builder, t: NamedType): (r: Result<NamedType, SchemaError>)
    ensures r.Success? ==> SameKind(r.value, t) && r.value.name == t.name && r.value.payload == t.payload
  {
    match t
    case ObjectType(name, fields, interfaces, extensionNodes, payload) =>
      var exts := ExtensionsFor(b, name);
      var newInterfaces :- ExtendImplementedInterfaces(b, name, interfaces, exts);
      var newFields :- ExtendFieldMap(b, name, fields, exts);
      Success(ObjectType(name, newFields, newInterfaces, extensionNodes + exts, payload))
    case InterfaceType(name, fields, payload) =>
      var newFields :- ExtendFieldMap(b, name, fields, ExtensionsFor(b, name));
      Success(InterfaceType(name, newFields, payload))
    case UnionType(name, members, payload) =>
      var newMembers :- ResolveNames(b, members, false);
      Success(UnionType(name, newMembers, payload))
    case _ => Success(t)
  }

  /**
   * Builds a type the document defines. The definition builder lives
   * outside this model; what it is observed to do here is resolve every
   * name the definition mentions through the same builder.
   */
  function BuildNewType(b: Builder, t: NamedType): (r: Result<NamedType, SchemaError>)
    ensures r.Success? <==> RefsIn(t, Known(b))
    ensures r.Success? ==> r.value == t
  {
    match t
    case ObjectType(name, fields, interfaces, extensionNodes, payload) =>
      var newInterfaces :- ResolveNames(b, interfaces, true);
      var newFields :- BuildFields(b, fields);
      Success(ObjectType(name, newFields, newInterfaces, extensionNodes, payload))
    case InterfaceType(name, fields, payload) =>
      var newFields :- BuildFields(b, fields);
      Success(InterfaceType(name, newFields, payload))
    case UnionType(name, members, payload) =>
      var newMembers :- ResolveNames(b, members, true);
      Success(UnionType(name, newMembers, payload))
    case InputObjectType(name, inputFields, payload) =>
      var newInputFields :- BuildInputValues(b, inputFields);
      Success(InputObjectType(name, newInputFields, payload))
    case _ => Success(t)
  }

  /** The builder's entry point for one name (lines 127-137, 184). */
  function BuildNamed(b: Builder, n: string): Result<NamedType, SchemaError> {
    if n in b.tables.typeDefs then BuildNewType(b, b.tables.typeDefs[n])
    else if n in b.schema.types then ExtendType(b, b.schema.types[n])
    else Failure(MissingType(n))
  }

  /** Builds every listed type into a fresh map, stopping at the first failure. */
  function RebuildTypes(b: Builder, names: seq<string>): (r: Result<map<string, NamedType>, SchemaError>)
    ensures r.Success? ==> r.value.Keys == set n | n in names
    ensures r.Success? ==> forall n :: n in names ==> BuildNamed(b, n) == Success(r.value[n])
  {
    if |names| == 0 then Success(map[])
    else
      var t :- BuildNamed(b, names[0]);
      var rest :- RebuildTypes(b, names[1..]);
      Success(rest[names[0] := t])
  }

  /** Builds the new directives (line 177-179): each argument type resolves by name. */
  function BuildDirectives(b: Builder, directives: seq<Directive>): (r: Result<seq<Directive>, SchemaError>)
    ensures r.Success? <==> forall i :: 0 <= i < |directives| ==> InputValuesIn(directives[i].args, Known(b))
    ensures r.Success? ==> r.value == directives
  {
    if |directives| == 0 then Success([])
    else
      var args :- BuildInputValues(b, directives[0].args);
      var rest :- BuildDirectives(b, directives[1..]);
      Success([directives[0].(args := args)] + rest)
  }
}
