/**
 * The first pass of schema extension (utilities/extendSchema.js, lines
 * 66-125): split the document's definitions into new types, object
 * extensions grouped by target, and new directives, refusing the first
 * definition in document order that conflicts with the original schema.
 */
module ExtendPartition {
  import opened Wrappers
  import opened Types
  import opened Language

  /** The tables the first pass fills. */
  datatype Tables = Tables(
    typeDefs: map<string, NamedType>,
      /** the keys of `typeDefs`, in the order each name was first defined */
    typeOrder: seq<string>,
    extensions: map<string, seq<ObjectExtension>>,
    directiveDefs: seq<Directive>)

  const NoTables := Tables(map[], [], map[], [])

  /** The error one definition raises against the original schema, if any. */
  function Conflict(s: Schema, d: Definition): Option<SchemaError> {
    match d
    case TypeDefinition(t) =>
      if t.name in s.types then Some(DuplicateType(t.name)) else None
    case ObjectExtensionDefinition(e) =>
      if e.target !in s.types then Some(UnknownExtensionTarget(e.target))
      else if !s.types[e.target].ObjectType? then Some(NonObjectExtensionTarget(e.target))
      else None
    case DirectiveDefinition(dir) =>
      if dir.name in DirectiveNames(s.directives) then Some(DuplicateDirective(dir.name)) else None
    case OtherDefinition => None
  }

  /** Files one conflict-free definition into its table. */
  function Record(t: Tables, d: Definition): Tables {
    match d
    case TypeDefinition(nt) =>
      t.(typeDefs := t.typeDefs[nt.name := nt],
         typeOrder := if nt.name in t.typeDefs then t.typeOrder else t.typeOrder + [nt.name])
    case ObjectExtensionDefinition(e) =>
      var prior := if e.target in t.extensions then t.extensions[e.target] else [];
      t.(extensions := t.extensions[e.target := prior + [e]])
    case DirectiveDefinition(dir) => t.(directiveDefs := t.directiveDefs + [dir])
    case OtherDefinition => t
  }

  /** The invariant every table produced against `s` keeps. */
  ghost predicate Fits(s: Schema, t: Tables) {
    && (forall n :: n in t.typeDefs ==> n !in s.types && t.typeDefs[n].name == n)
    && Distinct(t.typeOrder)
    && (forall n :: n in t.typeDefs <==> n in t.typeOrder)
    && (forall n :: n in t.extensions ==>
          && n in s.types && s.types[n].ObjectType? && t.extensions[n] != []
          && forall e :: e in t.extensions[n] ==> e.target == n)
    && (forall i :: 0 <= i < |t.directiveDefs| ==> t.directiveDefs[i].name !in DirectiveNames(s.directives))
  }

  /**
   * The first pass, as a left fold over the definitions that stops at the
   * first conflict.
   */
  function Partition(s: Schema, doc: seq<Definition>): Result<Tables, SchemaError> {
    if |doc| == 0 then Success(NoTables)
    else
      var t :- Partition(s, doc[..|doc| - 1]);
      match Conflict(s, doc[|doc| - 1])
      case Some(e) => Failure(e)
      case None => Success(Record(t, doc[|doc| - 1]))
  }

  /** Filing a definition that does not conflict keeps the tables fitting the schema. */
  lemma RecordFits(s: Schema, t: Tables, d: Definition)
    requires Fits(s, t) && Conflict(s, d).None?
    ensures Fits(s, Record(t, d))
  {
    match d
    case TypeDefinition(nt) =>
      var t' := Record(t, d);
      assert forall n :: n in t'.typeDefs <==> n in t'.typeOrder;
    case ObjectExtensionDefinition(e) =>
    case DirectiveDefinition(dir) =>
      var t' := Record(t, d);
      assert forall i :: 0 <= i < |t.directiveDefs| ==> t'.directiveDefs[i] == t.directiveDefs[i];
    case OtherDefinition =>
  }

  /**
   * Every table the first pass produces fits the schema: new types are new
   * names, each listed once in definition order; every extension list is
   * non-empty and targets an object type of the schema; every new directive
   * has a new name.
   */
  lemma {:induction false} PartitionFits(s: Schema, doc: seq<Definition>)
    requires Partition(s, doc).Success?
    ensures Fits(s, Partition(s, doc).value)
    decreases |doc|
  {
    if |doc| > 0 {
      PartitionFits(s, doc[..|doc| - 1]);
      RecordFits(s, Partition(s, doc[..|doc| - 1]).value, doc[|doc| - 1]);
    }
  }

  /** True when the document contributed nothing (line 123). */
  predicate NothingAdded(t: Tables) {
    |t.typeDefs| == 0 && |t.extensions| == 0 && |t.directiveDefs| == 0
  }

  // ---------------------------------------------------------------------
  // Reference definitions of what the tables hold, written as filters over
  // the document.

  /** The directive definitions of the document, in document order. */
  function NewDirectives(doc: seq<Definition>): seq<Directive> {
    if |doc| == 0 then []
    else (if doc[0].DirectiveDefinition? then [doc[0].directive] else []) + NewDirectives(doc[1..])
  }

  /** The extensions of the document that target `n`, in document order. */
  function ExtensionsOf(doc: seq<Definition>, n: string): seq<ObjectExtension> {
    if |doc| == 0 then []
    else
      (if doc[0].ObjectExtensionDefinition? && doc[0].extension.target == n then [doc[0].extension] else [])
      + ExtensionsOf(doc[1..], n)
  }

  /** The names of the types the document defines. */
  function DefinedTypeNames(doc: seq<Definition>): set<string> {
    set i | 0 <= i < |doc| && doc[i].TypeDefinition? :: doc[i].newType.name
  }

  /** The last definition of a type named `n` in the document. */
  function LastTypeDefinition(doc: seq<Definition>, n: string): Option<NamedType> {
    if |doc| == 0 then None
    else if doc[|doc| - 1].TypeDefinition? && doc[|doc| - 1].newType.name == n then Some(doc[|doc| - 1].newType)
    else LastTypeDefinition(doc[..|doc| - 1], n)
  }

  /** True when some definition of the document conflicts with the schema. */
  predicate HasConflict(s: Schema, doc: seq<Definition>) {
    exists i :: 0 <= i < |doc| && Conflict(s, doc[i]).Some?
  }

  lemma {:induction false} NewDirectivesSnoc(doc: seq<Definition>, d: Definition)
    ensures NewDirectives(doc + [d]) == NewDirectives(doc) + (if d.DirectiveDefinition? then [d.directive] else [])
    decreases |doc|
  {
    if |doc| == 0 {
      assert doc + [d] == [d];
    } else {
      assert (doc + [d])[0] == doc[0];
      assert (doc + [d])[1..] == doc[1..] + [d];
      NewDirectivesSnoc(doc[1..], d);
    }
  }

  lemma {:induction false} ExtensionsOfSnoc(doc: seq<Definition>, d: Definition, n: string)
    ensures ExtensionsOf(doc + [d], n)
         == ExtensionsOf(doc, n) + (if d.ObjectExtensionDefinition? && d.extension.target == n then [d.extension] else [])
    decreases |doc|
  {
    if |doc| == 0 {
      assert doc + [d] == [d];
    } else {
      assert (doc + [d])[0] == doc[0];
      assert (doc + [d])[1..] == doc[1..] + [d];
      ExtensionsOfSnoc(doc[1..], d, n);
    }
  }

  /**
   * Fail-fast: the first pass fails exactly when some definition conflicts
   * with the schema, and then with the error of the first such definition.
   */
  lemma {:induction false} PartitionFailsAtFirstConflict(s: Schema, doc: seq<Definition>)
    ensures Partition(s, doc).Failure? <==> HasConflict(s, doc)
    ensures Partition(s, doc).Failure? ==>
      exists i :: 0 <= i < |doc| && Conflict(s, doc[i]) == Some(Partition(s, doc).error)
        && forall j :: 0 <= j < i ==> Conflict(s, doc[j]).None?
    decreases |doc|
  {
    if |doc| > 0 {
      var front := doc[..|doc| - 1];
      PartitionFailsAtFirstConflict(s, front);
      assert forall j :: 0 <= j < |front| ==> front[j] == doc[j];
      if Partition(s, front).Failure? {
        var i :| 0 <= i < |front| && Conflict(s, front[i]) == Some(Partition(s, front).error)
          && forall j :: 0 <= j < i ==> Conflict(s, front[j]).None?;
        assert Conflict(s, doc[i]) == Some(Partition(s, doc).error);
      } else if Conflict(s, doc[|doc| - 1]).Some? {
        assert Conflict(s, doc[|doc| - 1]) == Some(Partition(s, doc).error);
      } else {
        assert !HasConflict(s, doc) by {
          forall i | 0 <= i < |doc| ensures Conflict(s, doc[i]).None? {
            if i < |front| {
              assert doc[i] == front[i];
            }
          }
        }
      }
    }
  }

  /** On success the new directives are the document's directive definitions, in document order. */
  lemma {:induction false} PartitionDirectives(s: Schema, doc: seq<Definition>)
    requires Partition(s, doc).Success?
    ensures Partition(s, doc).value.directiveDefs == NewDirectives(doc)
    decreases |doc|
  {
    if |doc| > 0 {
      var front := doc[..|doc| - 1];
      assert doc == front + [doc[|doc| - 1]];
      PartitionDirectives(s, front);
      NewDirectivesSnoc(front, doc[|doc| - 1]);
    }
  }

  /**
   * On success a name has an extension list exactly when the document
   * extends it, and the list is that name's extensions in document order.
   */
  lemma {:induction false} PartitionExtensions(s: Schema, doc: seq<Definition>)
    requires Partition(s, doc).Success?
    ensures forall n :: n in Partition(s, doc).value.extensions <==> ExtensionsOf(doc, n) != []
    ensures forall n :: n in Partition(s, doc).value.extensions ==>
      Partition(s, doc).value.extensions[n] == ExtensionsOf(doc, n)
    decreases |doc|
  {
    if |doc| == 0 {
      forall n ensures ExtensionsOf(doc, n) == [] { }
    } else {
      var front := doc[..|doc| - 1];
      var d := doc[|doc| - 1];
      assert doc == front + [d];
      PartitionExtensions(s, front);
      var t := Partition(s, front).value;
      assert Partition(s, doc).value == Record(t, d);
      forall n ensures (n in Record(t, d).extensions <==> ExtensionsOf(doc, n) != [])
        && (n in Record(t, d).extensions ==> Record(t, d).extensions[n] == ExtensionsOf(doc, n))
      {
        ExtensionsOfSnoc(front, d, n);
        RecordExtensions(t, d, n);
      }
    }
  }

  /** What filing one definition does to the extension list of a name. */
  lemma RecordExtensions(t: Tables, d: Definition, n: string)
    ensures var added := if d.ObjectExtensionDefinition? && d.extension.target == n then [d.extension] else [];
      var before := if n in t.extensions then t.extensions[n] else [];
      && (n in Record(t, d).extensions <==> n in t.extensions || added != [])
      && (n in Record(t, d).extensions ==> Record(t, d).extensions[n] == before + added)
  {
  }

  /**
   * On success the new-type table holds exactly the names the document
   * defines, each with its last definition: a later definition of the same
   * name replaces an earlier one without error.
   */
  lemma {:induction false} PartitionTypeDefs(s: Schema, doc: seq<Definition>)
    requires Partition(s, doc).Success?
    ensures forall n :: n in Partition(s, doc).value.typeDefs <==> n in DefinedTypeNames(doc)
    ensures forall n :: n in Partition(s, doc).value.typeDefs ==>
      LastTypeDefinition(doc, n) == Some(Partition(s, doc).value.typeDefs[n])
    decreases |doc|
  {
    if |doc| > 0 {
      var front := doc[..|doc| - 1];
      var d := doc[|doc| - 1];
      PartitionTypeDefs(s, front);
      assert DefinedTypeNames(doc) == DefinedTypeNames(front) + (if d.TypeDefinition? then {d.newType.name} else {}) by {
        forall x | x in DefinedTypeNames(doc)
          ensures x in DefinedTypeNames(front) + (if d.TypeDefinition? then {d.newType.name} else {})
        {
          var i :| 0 <= i < |doc| && doc[i].TypeDefinition? && doc[i].newType.name == x;
          if i < |front| {
            assert front[i] == doc[i];
          }
        }
        forall x | x in DefinedTypeNames(front) ensures x in DefinedTypeNames(doc) {
          var i :| 0 <= i < |front| && front[i].TypeDefinition? && front[i].newType.name == x;
          assert doc[i] == front[i];
        }
      }
    }
  }

  /** A document of definitions the engine does not act on leaves every table empty. */
  lemma {:induction false} PartitionOfOthers(s: Schema, doc: seq<Definition>)
    requires forall i :: 0 <= i < |doc| ==> doc[i].OtherDefinition?
    ensures Partition(s, doc) == Success(NoTables)
    decreases |doc|
  {
    if |doc| > 0 {
      PartitionOfOthers(s, doc[..|doc| - 1]);
    }
  }

  /** The document contributes nothing exactly when it has no definition the engine acts on. */
  lemma NothingAddedIff(s: Schema, doc: seq<Definition>)
    requires Partition(s, doc).Success?
    ensures NothingAdded(Partition(s, doc).value) <==> forall i :: 0 <= i < |doc| ==> doc[i].OtherDefinition?
  {
    if forall i :: 0 <= i < |doc| ==> doc[i].OtherDefinition? {
      PartitionOfOthers(s, doc);
    } else {
      var t := Partition(s, doc).value;
      var i :| 0 <= i < |doc| && !doc[i].OtherDefinition?;
      if doc[i].TypeDefinition? {
        PartitionTypeDefs(s, doc);
        assert doc[i].newType.name in DefinedTypeNames(doc);
        assert doc[i].newType.name in t.typeDefs;
      } else if doc[i].ObjectExtensionDefinition? {
        PartitionExtensions(s, doc);
        ExtensionsOfMember(doc, i);
        assert doc[i].extension.target in t.extensions;
      } else {
        PartitionDirectives(s, doc);
        NewDirectivesMember(doc, i);
      }
    }
  }

  lemma {:induction false} ExtensionsOfMember(doc: seq<Definition>, i: int)
    requires 0 <= i < |doc| && doc[i].ObjectExtensionDefinition?
    ensures doc[i].extension in ExtensionsOf(doc, doc[i].extension.target)
    decreases |doc|
  {
    if i > 0 {
      ExtensionsOfMember(doc[1..], i - 1);
    }
  }

  lemma {:induction false} NewDirectivesMember(doc: seq<Definition>, i: int)
    requires 0 <= i < |doc| && doc[i].DirectiveDefinition?
    ensures doc[i].directive in NewDirectives(doc)
    decreases |doc|
  {
    if i > 0 {
      NewDirectivesMember(doc[1..], i - 1);
    }
  }

  /**
   * The first pass as the source writes it: one loop over the definitions
   * that throws at the first conflict.
   */
  method PartitionDocument(s: Schema, doc: seq<Definition>) returns (r: Result<Tables, SchemaError>)
    ensures r == Partition(s, doc)
  {
    var t := NoTables;
    var i := 0;
    while i < |doc|
      invariant 0 <= i <= |doc|
      invariant Partition(s, doc[..i]) == Success(t)
    {
      assert doc[..i + 1][..i] == doc[..i];
      var conflict := Conflict(s, doc[i]);
      if conflict.Some? {
        PartitionStopsAtFailure(s, doc, i + 1);
        return Failure(conflict.value);
      }
      t := Record(t, doc[i]);
      i := i + 1;
    }
    assert doc[..i] == doc;
    r := Success(t);
  }

  /** Once a prefix fails, the whole document fails with the same error. */
  lemma {:induction false} PartitionStopsAtFailure(s: Schema, doc: seq<Definition>, k: nat)
    requires k <= |doc|
    requires Partition(s, doc[..k]).Failure?
    ensures Partition(s, doc) == Partition(s, doc[..k])
    decreases |doc| - k
  {
    if k < |doc| {
      assert doc[..k + 1][..k] == doc[..k];
      PartitionStopsAtFailure(s, doc, k + 1);
    } else {
      assert doc[..k] == doc;
    }
  }
}
