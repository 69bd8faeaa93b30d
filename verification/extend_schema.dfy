/**
 * The public operation of schema extension (utilities/extendSchema.js,
 * lines 61-181) and the guarantees it gives: fail-fast conflict detection,
 * the no-op fast path, directive order, untouched types, and a consistent
 * result.
 */
module ExtendSchema {
  import opened Wrappers
  import opened Types
  import opened Language
  import opened ExtendPartition
  import opened ExtendTypes
  import opened ExtendTypesFacts

  /**
   * Extends `s` with the definitions of a document. The result is the input
   * schema itself when the document adds nothing; otherwise a new schema
   * whose type list is the original list followed by the new type names,
   * whose roots are the original roots, and whose directives are the
   * original ones followed by the new ones.
   */
  function Extend(s: Schema, doc: seq<Definition>): (r: Result<Schema, SchemaError>)
    ensures Partition(s, doc).Failure? ==> r == Failure(Partition(s, doc).error)
    ensures r.Success? ==>
      && r.value.query == s.query && r.value.mutation == s.mutation && r.value.subscription == s.subscription
      && |s.typeNames| <= |r.value.typeNames| && r.value.typeNames[..|s.typeNames|] == s.typeNames
  {
    var tables :- Partition(s, doc);
    if NothingAdded(tables) then Success(s)
    else
      var b := Builder(s, tables);
      var typeNames := s.typeNames + tables.typeOrder;
      var types :- RebuildTypes(b, typeNames);
      var directives :- BuildDirectives(b, tables.directiveDefs);
      Success(Schema(typeNames, types, s.query, s.mutation, s.subscription, s.directives + directives))
  }

  /** The type definitions the document hands over come with unique field names. */
  predicate NewFieldMapsDistinct(doc: seq<Definition>) {
    forall i :: 0 <= i < |doc| && doc[i].TypeDefinition? ==> FieldMapShape(doc[i].newType)
  }

  // ---------------------------------------------------------------------
  // Conflicts found by the first pass

  /** The first conflicting definition in document order decides the error. */
  lemma ExtendFailsAtFirstConflict(s: Schema, doc: seq<Definition>, i: nat, e: SchemaError)
    requires i < |doc| && Conflict(s, doc[i]) == Some(e)
    requires forall j :: 0 <= j < i ==> Conflict(s, doc[j]).None?
    ensures Extend(s, doc) == Failure(e)
  {
    PartitionFailsAtFirstConflict(s, doc);
    var k :| 0 <= k < |doc| && Conflict(s, doc[k]) == Some(Partition(s, doc).error)
      && forall j :: 0 <= j < k ==> Conflict(s, doc[j]).None?;
    assert k == i;
  }

  /** A new type whose name the schema already has makes extension fail (lines 85-88). */
  lemma ExtendRejectsExistingTypeName(s: Schema, doc: seq<Definition>, i: nat)
    requires i < |doc| && doc[i].TypeDefinition? && doc[i].newType.name in s.types
    ensures Extend(s, doc).Failure?
    ensures (forall j :: 0 <= j < i ==> Conflict(s, doc[j]).None?) ==>
      Extend(s, doc) == Failure(DuplicateType(doc[i].newType.name))
  {
    PartitionFailsAtFirstConflict(s, doc);
    if forall j :: 0 <= j < i ==> Conflict(s, doc[j]).None? {
      ExtendFailsAtFirstConflict(s, doc, i, DuplicateType(doc[i].newType.name));
    }
  }

  /** Extending a type the schema lacks makes extension fail (lines 94-98). */
  lemma ExtendRejectsMissingTarget(s: Schema, doc: seq<Definition>, i: nat)
    requires i < |doc| && doc[i].ObjectExtensionDefinition? && doc[i].extension.target !in s.types
    ensures Extend(s, doc).Failure?
    ensures (forall j :: 0 <= j < i ==> Conflict(s, doc[j]).None?) ==>
      Extend(s, doc) == Failure(UnknownExtensionTarget(doc[i].extension.target))
  {
    PartitionFailsAtFirstConflict(s, doc);
    if forall j :: 0 <= j < i ==> Conflict(s, doc[j]).None? {
      ExtendFailsAtFirstConflict(s, doc, i, UnknownExtensionTarget(doc[i].extension.target));
    }
  }

  /** Extending a type that is not an object type makes extension fail (lines 99-101). */
  lemma ExtendRejectsNonObjectTarget(s: Schema, doc: seq<Definition>, i: nat)
    requires i < |doc| && doc[i].ObjectExtensionDefinition?
    requires doc[i].extension.target in s.types && !s.types[doc[i].extension.target].ObjectType?
    ensures Extend(s, doc).Failure?
    ensures (forall j :: 0 <= j < i ==> Conflict(s, doc[j]).None?) ==>
      Extend(s, doc) == Failure(NonObjectExtensionTarget(doc[i].extension.target))
  {
    PartitionFailsAtFirstConflict(s, doc);
    if forall j :: 0 <= j < i ==> Conflict(s, doc[j]).None? {
      ExtendFailsAtFirstConflict(s, doc, i, NonObjectExtensionTarget(doc[i].extension.target));
    }
  }

  /** A new directive whose name the schema already has makes extension fail (lines 110-115). */
  lemma ExtendRejectsExistingDirective(s: Schema, doc: seq<Definition>, i: nat, k: nat)
    requires i < |doc| && doc[i].DirectiveDefinition?
    requires k < |s.directives| && s.directives[k].name == doc[i].directive.name
    ensures Extend(s, doc).Failure?
    ensures (forall j :: 0 <= j < i ==> Conflict(s, doc[j]).None?) ==>
      Extend(s, doc) == Failure(DuplicateDirective(doc[i].directive.name))
  {
    assert doc[i].directive.name in DirectiveNames(s.directives);
    PartitionFailsAtFirstConflict(s, doc);
    if forall j :: 0 <= j < i ==> Conflict(s, doc[j]).None? {
      ExtendFailsAtFirstConflict(s, doc, i, DuplicateDirective(doc[i].directive.name));
    }
  }

  // ---------------------------------------------------------------------
  // The fast path and the directive list

  /**
   * A document with no type definition, object extension or directive
   * definition returns the input schema itself (lines 121-125).
   */
  lemma ExtendNoOp(s: Schema, doc: seq<Definition>)
    requires forall i :: 0 <= i < |doc| ==> doc[i].OtherDefinition?
    ensures Extend(s, doc) == Success(s)
  {
    PartitionOfOthers(s, doc);
  }

  /**
   * The extended schema's directives are the original directives in their
   * order followed by the document's directive definitions in document
   * order (lines 173-181).
   */
  lemma ExtendDirectives(s: Schema, doc: seq<Definition>)
    requires Extend(s, doc).Success?
    ensures Extend(s, doc).value.directives == s.directives + NewDirectives(doc)
  {
    PartitionDirectives(s, doc);
    var t := Partition(s, doc).value;
    if NothingAdded(t) {
      assert NewDirectives(doc) == [];
    }
  }

  // ---------------------------------------------------------------------
  // The rebuilt types

  lemma {:induction false} RebuildTypesFails(b: Builder, names: seq<string>, n: string)
    requires n in names && BuildNamed(b, n).Failure?
    ensures RebuildTypes(b, names).Failure?
    decreases |names|
  {
    if names[0] != n && BuildNamed(b, names[0]).Success? {
      RebuildTypesFails(b, names[1..], n);
    }
  }

  /** The builder of a call that got past the first pass with something to add. */
  lemma BuilderOf(s: Schema, doc: seq<Definition>) returns (b: Builder)
    requires Partition(s, doc).Success? && !NothingAdded(Partition(s, doc).value)
    ensures b == Builder(s, Partition(s, doc).value)
    ensures Fits(s, b.tables)
    ensures Extend(s, doc).Success? ==>
      && RebuildTypes(b, s.typeNames + b.tables.typeOrder).Success?
      && Extend(s, doc).value.types == RebuildTypes(b, s.typeNames + b.tables.typeOrder).value
  {
    b := Builder(s, Partition(s, doc).value);
    PartitionFits(s, doc);
  }

  /** An object extension of the document is filed under its target by the first pass. */
  lemma ExtensionFiled(s: Schema, doc: seq<Definition>, i: nat)
    requires Partition(s, doc).Success?
    requires i < |doc| && doc[i].ObjectExtensionDefinition?
    ensures var t := Partition(s, doc).value;
      && !NothingAdded(t)
      && doc[i].extension in ExtensionsFor(Builder(s, t), doc[i].extension.target)
  {
    PartitionExtensions(s, doc);
    ExtensionsOfMember(doc, i);
  }

  /** A type of the schema that fails to rebuild makes the whole extension fail. */
  lemma ExtendFailsWithType(s: Schema, doc: seq<Definition>, n: string)
    requires WellFormed(s) && n in s.types
    requires Partition(s, doc).Success? && !NothingAdded(Partition(s, doc).value)
    requires BuildNamed(Builder(s, Partition(s, doc).value), n).Failure?
    ensures Extend(s, doc).Failure?
  {
    var b := BuilderOf(s, doc);
    assert n in s.typeNames;
    RebuildTypesFails(b, s.typeNames + b.tables.typeOrder, n);
  }

  lemma ObjectFailsOnExistingField(b: Builder, n: string, e: ObjectExtension, j: nat)
    requires n in b.schema.types && b.schema.types[n].ObjectType? && b.schema.types[n].name == n
    requires n !in b.tables.typeDefs
    requires e in ExtensionsFor(b, n) && j < |e.fields|
    requires e.fields[j].name in FieldNames(b.schema.types[n].fields)
    ensures BuildNamed(b, n).Failure?
  {
    var o := b.schema.types[n];
    var exts := ExtensionsFor(b, n);
    var k := AllFieldsMember(exts, e, j);
    ExtendFieldMapRejectsOriginalName(b, n, o.fields, exts, k);
    assert BuildNamed(b, n) == ExtendType(b, o);
  }

  lemma ObjectFailsOnImplementedInterface(b: Builder, n: string, e: ObjectExtension, j: nat)
    requires n in b.schema.types && b.schema.types[n].ObjectType? && b.schema.types[n].name == n
    requires n !in b.tables.typeDefs
    requires e in ExtensionsFor(b, n) && j < |e.interfaces|
    requires e.interfaces[j] in b.schema.types[n].interfaces
    ensures BuildNamed(b, n).Failure?
  {
    var o := b.schema.types[n];
    var exts := ExtensionsFor(b, n);
    var k := AllInterfacesMember(exts, e, j);
    ExtendImplementedInterfacesSpec(b, n, o.interfaces, exts);
    assert ExtendImplementedInterfaces(b, n, o.interfaces, exts).Failure?;
    assert BuildNamed(b, n) == ExtendType(b, o);
  }

  /**
   * An extension field whose name is a field of its target makes the whole
   * extension fail (line 292-294).
   */
  lemma ExtendRejectsExistingField(s: Schema, doc: seq<Definition>, i: nat, j: nat)
    requires WellFormed(s)
    requires i < |doc| && doc[i].ObjectExtensionDefinition?
    requires j < |doc[i].extension.fields|
    requires doc[i].extension.target in s.types && s.types[doc[i].extension.target].ObjectType?
    requires doc[i].extension.fields[j].name in FieldNames(s.types[doc[i].extension.target].fields)
    ensures Extend(s, doc).Failure?
  {
    var n := doc[i].extension.target;
    if Partition(s, doc).Success? {
      var b := Builder(s, Partition(s, doc).value);
      ExtensionFiled(s, doc, i);
      PartitionFits(s, doc);
      ObjectFailsOnExistingField(b, n, doc[i].extension, j);
      ExtendFailsWithType(s, doc, n);
    }
  }

  /**
   * An extension interface the target already implements makes the whole
   * extension fail (lines 255-260).
   */
  lemma ExtendRejectsImplementedInterface(s: Schema, doc: seq<Definition>, i: nat, j: nat)
    requires WellFormed(s)
    requires i < |doc| && doc[i].ObjectExtensionDefinition?
    requires j < |doc[i].extension.interfaces|
    requires doc[i].extension.target in s.types && s.types[doc[i].extension.target].ObjectType?
    requires doc[i].extension.interfaces[j] in s.types[doc[i].extension.target].interfaces
    ensures Extend(s, doc).Failure?
  {
    var n := doc[i].extension.target;
    if Partition(s, doc).Success? {
      var b := Builder(s, Partition(s, doc).value);
      ExtensionFiled(s, doc, i);
      PartitionFits(s, doc);
      ObjectFailsOnImplementedInterface(b, n, doc[i].extension, j);
      ExtendFailsWithType(s, doc, n);
    }
  }

  lemma {:induction false} AllFieldsMember(exts: seq<ObjectExtension>, e: ObjectExtension, j: nat) returns (k: nat)
    requires e in exts && j < |e.fields|
    ensures k < |AllFields(exts)| && AllFields(exts)[k] == e.fields[j]
    decreases |exts|
  {
    if exts[0] == e {
      k := j;
    } else {
      var k' := AllFieldsMember(exts[1..], e, j);
      k := |exts[0].fields| + k';
    }
  }

  lemma {:induction false} AllInterfacesMember(exts: seq<ObjectExtension>, e: ObjectExtension, j: nat) returns (k: nat)
    requires e in exts && j < |e.interfaces|
    ensures k < |AllInterfaces(exts)| && AllInterfaces(exts)[k] == e.interfaces[j]
    decreases |exts|
  {
    if exts[0] == e {
      k := j;
    } else {
      var k' := AllInterfacesMember(exts[1..], e, j);
      k := |exts[0].interfaces| + k';
    }
  }

  // ---------------------------------------------------------------------
  // Consistency of the result

  lemma {:induction false} LastTypeDefinitionFrom(doc: seq<Definition>, n: string)
    requires LastTypeDefinition(doc, n).Some?
    ensures exists i :: 0 <= i < |doc| && doc[i].TypeDefinition? && doc[i].newType == LastTypeDefinition(doc, n).value
    decreases |doc|
  {
    var last := doc[|doc| - 1];
    if !(last.TypeDefinition? && last.newType.name == n) {
      var front := doc[..|doc| - 1];
      LastTypeDefinitionFrom(front, n);
      var i :| 0 <= i < |front| && front[i].TypeDefinition? && front[i].newType == LastTypeDefinition(front, n).value;
      assert doc[i] == front[i];
    }
  }

  /** Every field of a merged field map refers only to names the builder knows. */
  lemma MergedFieldsResolve(b: Builder, typeName: string, original: seq<Field>, exts: seq<ObjectExtension>)
    requires DistinctFieldNames(original) && FieldsIn(original, b.schema.types.Keys)
    requires ExtendFieldMap(b, typeName, original, exts).Success?
    ensures FieldsIn(ExtendFieldMap(b, typeName, original, exts).value, Known(b))
    ensures DistinctFieldNames(ExtendFieldMap(b, typeName, original, exts).value)
  {
    var r := ExtendFieldMap(b, typeName, original, exts).value;
    var added := AllFields(exts);
    ExtendFieldMapResult(b, typeName, original, exts);
    ExtendFieldMapSucceedsIff(b, typeName, original, exts);
    forall i | 0 <= i < |r| ensures FieldRefsIn(r[i], Known(b)) {
      if i < |original| {
        assert r[i] == r[..|original|][i] == original[i];
        assert FieldRefsIn(original[i], b.schema.types.Keys);
      } else {
        LastNamedIsLast(added, r[i].name);
        var j :| 0 <= j < |added| && added[j] == LastNamed(added, r[i].name).value && added[j].name == r[i].name;
        assert FieldRefsIn(added[j], Known(b));
      }
    }
  }

  /** Every interface of a merged interface list is a name the builder knows. */
  lemma MergedInterfacesResolve(b: Builder, typeName: string, original: seq<string>, exts: seq<ObjectExtension>)
    requires ExtendImplementedInterfaces(b, typeName, original, exts).Success?
    ensures NamesIn(ExtendImplementedInterfaces(b, typeName, original, exts).value, Known(b))
  {
    var r := ExtendImplementedInterfaces(b, typeName, original, exts).value;
    ExtendImplementedInterfacesSpec(b, typeName, original, exts);
    forall i | 0 <= i < |r| ensures r[i] in Known(b) {
      if i >= |original| {
        assert r[i] == AllInterfaces(exts)[i - |original|];
      } else {
        assert r[i] == original[i];
      }
    }
  }

  /** A rebuilt type of a consistent schema keeps unique field names and refers only to known names. */
  lemma ExtendTypeConsistent(b: Builder, t: NamedType)
    requires FieldMapShape(t) && RefsIn(t, b.schema.types.Keys)
    requires ExtendType(b, t).Success?
    ensures FieldMapShape(ExtendType(b, t).value) && RefsIn(ExtendType(b, t).value, Known(b))
  {
    var r := ExtendType(b, t).value;
    match t
    case ObjectType(name, fields, interfaces, extensionNodes, payload) =>
      var exts := ExtensionsFor(b, name);
      MergedInterfacesResolve(b, name, interfaces, exts);
      MergedFieldsResolve(b, name, fields, exts);
    case InterfaceType(name, fields, payload) =>
      MergedFieldsResolve(b, name, fields, ExtensionsFor(b, name));
    case UnionType(name, members, payload) =>
    case ScalarType(_, _) =>
    case EnumType(_, _, _) =>
    case InputObjectType(name, inputFields, payload) =>
      assert InputValuesIn(inputFields, Known(b)) by {
        forall i | 0 <= i < |inputFields| ensures Innermost(inputFields[i].valueType) in Known(b) {
          assert Innermost(inputFields[i].valueType) in b.schema.types.Keys;
        }
      }
  }

  /**
   * What the second pass produced from a schema and its builder, stated
   * without the fold that computed it.
   */
  ghost predicate Rebuilt(s: Schema, b: Builder, r: Schema) {
    && b.schema == s && Fits(s, b.tables)
    && r.typeNames == s.typeNames + b.tables.typeOrder
    && (forall n :: n in r.types <==> n in r.typeNames)
    && (forall n :: n in r.types ==> BuildNamed(b, n) == Success(r.types[n]))
    && r.directives == s.directives + b.tables.directiveDefs
    && (forall i :: 0 <= i < |b.tables.directiveDefs| ==> InputValuesIn(b.tables.directiveDefs[i].args, Known(b)))
    && r.query == s.query && r.mutation == s.mutation && r.subscription == s.subscription
  }

  lemma ExtendRebuilt(s: Schema, doc: seq<Definition>) returns (b: Builder)
    requires Extend(s, doc).Success? && !NothingAdded(Partition(s, doc).value)
    ensures b == Builder(s, Partition(s, doc).value)
    ensures Rebuilt(s, b, Extend(s, doc).value)
  {
    b := BuilderOf(s, doc);
  }

  /** The type definitions a document hands over keep unique field names through the first pass. */
  lemma NewTypesShaped(s: Schema, doc: seq<Definition>)
    requires NewFieldMapsDistinct(doc) && Partition(s, doc).Success?
    ensures forall n :: n in Partition(s, doc).value.typeDefs ==> FieldMapShape(Partition(s, doc).value.typeDefs[n])
  {
    PartitionTypeDefs(s, doc);
    forall n | n in Partition(s, doc).value.typeDefs ensures FieldMapShape(Partition(s, doc).value.typeDefs[n]) {
      LastTypeDefinitionFrom(doc, n);
    }
  }

  lemma RebuiltNamesDistinct(s: Schema, b: Builder, r: Schema)
    requires WellFormed(s) && Rebuilt(s, b, r)
    ensures Distinct(r.typeNames)
  {
    var names := r.typeNames;
    var t := b.tables;
    forall i, j | 0 <= i < j < |names| ensures names[i] != names[j] {
      if i < |s.typeNames| && j >= |s.typeNames| {
        assert names[i] == s.typeNames[i];
        assert names[j] == t.typeOrder[j - |s.typeNames|];
        assert names[j] in t.typeDefs;
      } else if i >= |s.typeNames| {
        assert names[i] == t.typeOrder[i - |s.typeNames|] && names[j] == t.typeOrder[j - |s.typeNames|];
      } else {
        assert names[i] == s.typeNames[i] && names[j] == s.typeNames[j];
      }
    }
  }

  /** The names held by a concatenation of two name lists. */
  lemma NamesOfAppend(xs: seq<string>, ys: seq<string>, a: set<string>, b: set<string>, r: set<string>)
    requires forall n :: n in a <==> n in xs
    requires forall n :: n in b <==> n in ys
    requires forall n :: n in r <==> n in xs + ys
    ensures r == a + b
  {
    forall n | n in xs + ys ensures n in xs || n in ys {
      var k :| 0 <= k < |xs + ys| && (xs + ys)[k] == n;
      if k < |xs| {
        assert xs[k] == n;
      } else {
        assert ys[k - |xs|] == n;
      }
    }
    forall n | n in xs ensures n in xs + ys {
      var k :| 0 <= k < |xs| && xs[k] == n;
      assert (xs + ys)[k] == n;
    }
    forall n | n in ys ensures n in xs + ys {
      var k :| 0 <= k < |ys| && ys[k] == n;
      assert (xs + ys)[|xs| + k] == n;
    }
  }

  lemma RebuiltKnown(s: Schema, b: Builder, r: Schema)
    requires WellFormed(s) && Rebuilt(s, b, r)
    ensures Known(b) == r.types.Keys
  {
    NamesOfAppend(s.typeNames, b.tables.typeOrder, s.types.Keys, b.tables.typeDefs.Keys, r.types.Keys);
  }

  lemma RebuiltTypesConsistent(s: Schema, b: Builder, r: Schema)
    requires WellFormed(s) && Rebuilt(s, b, r)
    requires forall n :: n in b.tables.typeDefs ==> FieldMapShape(b.tables.typeDefs[n])
    ensures forall n :: n in r.types ==> r.types[n].name == n && FieldMapShape(r.types[n]) && RefsIn(r.types[n], r.types.Keys)
  {
    RebuiltKnown(s, b, r);
    forall n | n in r.types
      ensures r.types[n].name == n && FieldMapShape(r.types[n]) && RefsIn(r.types[n], r.types.Keys)
    {
      assert BuildNamed(b, n) == Success(r.types[n]);
      if n !in b.tables.typeDefs {
        assert n in s.types;
        ExtendTypeConsistent(b, s.types[n]);
      }
    }
  }

  /** Directive arguments resolve in `names` across a concatenation when they do in each part. */
  lemma DirectiveArgsAppend(front: seq<Directive>, back: seq<Directive>, names: set<string>, more: set<string>)
    requires names <= more
    requires forall i :: 0 <= i < |front| ==> InputValuesIn(front[i].args, names)
    requires forall i :: 0 <= i < |back| ==> InputValuesIn(back[i].args, more)
    ensures forall i :: 0 <= i < |front + back| ==> InputValuesIn((front + back)[i].args, more)
  {
    forall i | 0 <= i < |front + back| ensures InputValuesIn((front + back)[i].args, more) {
      if i < |front| {
        assert (front + back)[i] == front[i];
        assert InputValuesIn(front[i].args, names);
      } else {
        assert (front + back)[i] == back[i - |front|];
      }
    }
  }

  lemma RebuiltDirectiveArgs(s: Schema, b: Builder, r: Schema)
    requires WellFormed(s) && Rebuilt(s, b, r)
    ensures forall i :: 0 <= i < |r.directives| ==> InputValuesIn(r.directives[i].args, r.types.Keys)
  {
    RebuiltKnown(s, b, r);
    DirectiveArgsAppend(s.directives, b.tables.directiveDefs, s.types.Keys, Known(b));
  }

  /**
   * Extension keeps a schema consistent: the type list has no repeats and
   * agrees with the type map, every type sits under its own name with
   * unique field names, and every reference anywhere names a type of the
   * result. In a graph whose references are names this is the form the
   * one-instance-per-name guarantee takes.
   */
  lemma ExtendWellFormed(s: Schema, doc: seq<Definition>)
    requires WellFormed(s) && NewFieldMapsDistinct(doc)
    requires Extend(s, doc).Success?
    ensures WellFormed(Extend(s, doc).value)
  {
    if !NothingAdded(Partition(s, doc).value) {
      var r := Extend(s, doc).value;
      var b := ExtendRebuilt(s, doc);
      NewTypesShaped(s, doc);
      RebuiltNamesDistinct(s, b, r);
      RebuiltTypesConsistent(s, b, r);
      RebuiltDirectiveArgs(s, b, r);
      RebuiltKnown(s, b, r);
    }
  }

  /**
   * Every type of the original schema is in the result with the same name
   * and kind, and one that no extension targets is unchanged.
   */
  lemma ExtendKeepsOriginalTypes(s: Schema, doc: seq<Definition>)
    requires WellFormed(s)
    requires Extend(s, doc).Success?
    ensures forall n :: n in s.types ==>
      && n in Extend(s, doc).value.types
      && SameKind(Extend(s, doc).value.types[n], s.types[n])
      && (ExtensionsOf(doc, n) == [] ==> Extend(s, doc).value.types[n] == s.types[n])
  {
    var r := Extend(s, doc).value;
    if !NothingAdded(Partition(s, doc).value) {
      var b := ExtendRebuilt(s, doc);
      PartitionExtensions(s, doc);
      forall n | n in s.types
        ensures n in r.types && SameKind(r.types[n], s.types[n])
        ensures ExtensionsOf(doc, n) == [] ==> r.types[n] == s.types[n]
      {
        RebuiltKeepsOriginal(s, b, r, n);
      }
    }
  }

  lemma RebuiltKeepsOriginal(s: Schema, b: Builder, r: Schema, n: string)
    requires WellFormed(s) && Rebuilt(s, b, r) && n in s.types
    ensures n in r.types && SameKind(r.types[n], s.types[n])
    ensures ExtensionsFor(b, n) == [] ==> r.types[n] == s.types[n]
  {
    assert n in s.typeNames;
    assert r.typeNames[..|s.typeNames|] == s.typeNames;
    assert n in r.typeNames;
    assert BuildNamed(b, n) == Success(r.types[n]);
    assert n !in b.tables.typeDefs;
    if ExtensionsFor(b, n) == [] {
      assert RefsIn(s.types[n], Known(b));
      UnextendedTypeUnchanged(b, s.types[n]);
    }
  }

  /**
   * Every type the document defines is in the result, as its last
   * definition in the document.
   */
  lemma ExtendAddsNewTypes(s: Schema, doc: seq<Definition>)
    requires Extend(s, doc).Success?
    ensures forall n :: n in DefinedTypeNames(doc) ==>
      n in Extend(s, doc).value.types && LastTypeDefinition(doc, n) == Some(Extend(s, doc).value.types[n])
  {
    var t := Partition(s, doc).value;
    PartitionTypeDefs(s, doc);
    if NothingAdded(t) {
      assert DefinedTypeNames(doc) == {};
    } else {
      var b := BuilderOf(s, doc);
      var r := Extend(s, doc).value;
      forall n | n in DefinedTypeNames(doc)
        ensures n in r.types && LastTypeDefinition(doc, n) == Some(r.types[n])
      {
        assert n in t.typeOrder;
        assert BuildNamed(b, n) == Success(r.types[n]);
      }
    }
  }

  /**
   * An extended object type of the result: its interfaces are the original
   * ones then every extension's interfaces in document order, its extension
   * nodes grow by the extensions (an empty one included), and its fields
   * start with the original fields and gain every extension field name.
   */
  lemma ExtendObjectInSchema(s: Schema, doc: seq<Definition>, n: string)
    requires WellFormed(s)
    requires Extend(s, doc).Success?
    requires n in s.types && s.types[n].ObjectType?
    ensures var o := s.types[n]; var e := Extend(s, doc).value.types[n]; var exts := ExtensionsOf(doc, n);
      && n in Extend(s, doc).value.types && e.ObjectType?
      && e.interfaces == o.interfaces + AllInterfaces(exts)
      && e.extensionNodes == o.extensionNodes + exts
      && |o.fields| <= |e.fields| && e.fields[..|o.fields|] == o.fields
      && FieldNames(e.fields) == FieldNames(o.fields) + FieldNames(AllFields(exts))
      && NamesOf(e.fields) == NamesOf(o.fields) + FirstNewNames(AllFields(exts), FieldNames(o.fields))
  {
    var t := Partition(s, doc).value;
    PartitionExtensions(s, doc);
    ExtendKeepsOriginalTypes(s, doc);
    if !NothingAdded(t) {
      var b := BuilderOf(s, doc);
      assert n in s.typeNames;
      assert n !in t.typeDefs;
      assert ExtensionsFor(b, n) == ExtensionsOf(doc, n);
      ExtendObjectType(b, s.types[n]);
    } else {
      assert ExtensionsOf(doc, n) == [];
    }
  }

  /**
   * Extension returns the input schema exactly when the document
   * contributes nothing: any type definition, object extension (an empty
   * one included) or directive definition shows in the result.
   */
  lemma ExtendChangesIffContributes(s: Schema, doc: seq<Definition>)
    requires WellFormed(s)
    requires Extend(s, doc).Success?
    ensures Extend(s, doc).value == s <==> forall i :: 0 <= i < |doc| ==> doc[i].OtherDefinition?
  {
    var r := Extend(s, doc).value;
    NothingAddedIff(s, doc);
    if exists i :: 0 <= i < |doc| && !doc[i].OtherDefinition? {
      var i :| 0 <= i < |doc| && !doc[i].OtherDefinition?;
      if doc[i].TypeDefinition? {
        ExtendAddsNewTypes(s, doc);
        assert doc[i].newType.name in DefinedTypeNames(doc);
        assert doc[i].newType.name !in s.types by {
          PartitionFailsAtFirstConflict(s, doc);
          assert Conflict(s, doc[i]).None?;
        }
      } else if doc[i].ObjectExtensionDefinition? {
        var n := doc[i].extension.target;
        PartitionFailsAtFirstConflict(s, doc);
        assert Conflict(s, doc[i]).None?;
        ExtensionsOfMember(doc, i);
        ExtendObjectInSchema(s, doc, n);
        assert |r.types[n].extensionNodes| > |s.types[n].extensionNodes|;
      } else {
        ExtendDirectives(s, doc);
        NewDirectivesMember(doc, i);
        assert |r.directives| > |s.directives|;
      }
    }
  }
}
