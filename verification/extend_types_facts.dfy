/**
 * What the rebuild pass guarantees about one type: the merged field map,
 * the grown interface list, and the types an extension does not touch.
 */
module ExtendTypesFacts {
  import opened Wrappers
  import opened Types
  import opened ExtendPartition
  import opened ExtendTypes

  /** The last field named `n` in `fields`, if any. */
  function LastNamed(fields: seq<Field>, n: string): Option<Field> {
    if |fields| == 0 then None
    else
      match LastNamed(fields[1..], n)
      case Some(f) => Some(f)
      case None => if fields[0].name == n then Some(fields[0]) else None
  }

  /** `LastNamed` picks an element named `n` that no later element shares the name of. */
  lemma {:induction false} LastNamedIsLast(fields: seq<Field>, n: string)
    ensures LastNamed(fields, n).Some? <==> n in FieldNames(fields)
    ensures LastNamed(fields, n).Some? ==>
      exists j :: 0 <= j < |fields| && fields[j] == LastNamed(fields, n).value && fields[j].name == n
        && forall k :: j < k < |fields| ==> fields[k].name != n
    decreases |fields|
  {
    if |fields| > 0 {
      LastNamedIsLast(fields[1..], n);
      assert FieldNames(fields) == {fields[0].name} + FieldNames(fields[1..]) by {
        assert fields == [fields[0]] + fields[1..];
      }
      if LastNamed(fields[1..], n).Some? {
        var j :| 0 <= j < |fields[1..]| && fields[1..][j] == LastNamed(fields[1..], n).value
          && fields[1..][j].name == n && forall k :: j < k < |fields[1..]| ==> fields[1..][k].name != n;
        assert fields[j + 1] == fields[1..][j];
        assert forall k :: j + 1 < k < |fields| ==> fields[k] == fields[1..][k - 1];
      } else if fields[0].name == n {
        assert forall k :: 0 < k < |fields| ==> fields[k] in fields[1..];
      }
    }
  }

  /**
   * Adding extension fields fails on the first one whose name is an
   * original field name or whose types do not resolve; otherwise it
   * succeeds.
   */
  lemma {:induction false} AddExtensionFieldsSucceedsIff(b: Builder, typeName: string, oldNames: set<string>,
                                                         acc: seq<Field>, added: seq<Field>)
    ensures AddExtensionFields(b, typeName, oldNames, acc, added).Success? <==>
      forall j :: 0 <= j < |added| ==> added[j].name !in oldNames && FieldRefsIn(added[j], Known(b))
    decreases |added|
  {
    if |added| > 0 && added[0].name !in oldNames && FieldRefsIn(added[0], Known(b)) {
      AddExtensionFieldsSucceedsIff(b, typeName, oldNames, Put(acc, added[0]), added[1..]);
      assert forall j :: 0 < j < |added| ==> added[j] == added[1..][j - 1];
    }
  }

  lemma FieldNamesCons(fields: seq<Field>)
    requires |fields| > 0
    ensures FieldNames(fields) == {fields[0].name} + FieldNames(fields[1..])
  {
    assert fields == [fields[0]] + fields[1..];
  }

  /** A successful run of extension fields keeps names unique and gains exactly the added names. */
  lemma {:induction false} AddExtensionFieldsNames(b: Builder, typeName: string, oldNames: set<string>,
                                                   acc: seq<Field>, added: seq<Field>)
    requires DistinctFieldNames(acc)
    requires AddExtensionFields(b, typeName, oldNames, acc, added).Success?
    ensures var r := AddExtensionFields(b, typeName, oldNames, acc, added).value;
      && DistinctFieldNames(r)
      && FieldNames(r) == FieldNames(acc) + FieldNames(added)
      && |acc| <= |r|
    decreases |added|
  {
    if |added| > 0 {
      var f := added[0];
      var acc' := Put(acc, f);
      assert AddExtensionFields(b, typeName, oldNames, acc, added) == AddExtensionFields(b, typeName, oldNames, acc', added[1..]);
      AddExtensionFieldsNames(b, typeName, oldNames, acc', added[1..]);
      FieldNamesCons(added);
    }
  }

  /**
   * In a successful run of extension fields, a name some added field
   * carries holds the LAST added field of that name, and every other entry
   * is the entry of `acc` at the same position.
   */
  lemma {:induction false} AddExtensionFieldsLast(b: Builder, typeName: string, oldNames: set<string>,
                                                  acc: seq<Field>, added: seq<Field>)
    requires DistinctFieldNames(acc)
    requires AddExtensionFields(b, typeName, oldNames, acc, added).Success?
    ensures var r := AddExtensionFields(b, typeName, oldNames, acc, added).value;
      && (forall i :: 0 <= i < |r| && LastNamed(added, r[i].name).Some? ==> r[i] == LastNamed(added, r[i].name).value)
      && (forall i :: 0 <= i < |r| && LastNamed(added, r[i].name).None? ==> i < |acc| && r[i] == acc[i])
    decreases |added|
  {
    var r := AddExtensionFields(b, typeName, oldNames, acc, added).value;
    if |added| > 0 {
      var f := added[0];
      var acc' := Put(acc, f);
      assert r == AddExtensionFields(b, typeName, oldNames, acc', added[1..]).value;
      AddExtensionFieldsLast(b, typeName, oldNames, acc', added[1..]);
      forall i | 0 <= i < |r| && LastNamed(added, r[i].name).None?
        ensures i < |acc| && r[i] == acc[i]
      {
        assert r[i] == acc'[i];
      }
      forall i | 0 <= i < |r| && LastNamed(added[1..], r[i].name).None? && LastNamed(added, r[i].name).Some?
        ensures r[i] == f
      {
        assert r[i] == acc'[i];
      }
    }
  }

  /** In a successful run of extension fields, an entry of `acc` no added field names stays put. */
  lemma {:induction false} AddExtensionFieldsKeeps(b: Builder, typeName: string, oldNames: set<string>,
                                                   acc: seq<Field>, added: seq<Field>)
    requires DistinctFieldNames(acc)
    requires AddExtensionFields(b, typeName, oldNames, acc, added).Success?
    ensures var r := AddExtensionFields(b, typeName, oldNames, acc, added).value;
      |acc| <= |r| && forall i :: 0 <= i < |acc| && acc[i].name !in FieldNames(added) ==> r[i] == acc[i]
    decreases |added|
  {
    if |added| > 0 {
      var f := added[0];
      AddExtensionFieldsKeeps(b, typeName, oldNames, Put(acc, f), added[1..]);
      assert FieldNames(added) == {f.name} + FieldNames(added[1..]) by {
        assert added == [f] + added[1..];
      }
    }
  }

  /** The names of a field list, in order. */
  function NamesOf(fields: seq<Field>): seq<string> {
    seq(|fields|, i requires 0 <= i < |fields| => fields[i].name)
  }

  /**
   * The names of `fields` not in `known`, each once, in the order of their
   * first occurrence: the key order that assigning the fields one by one
   * into a map already holding `known` appends.
   */
  function FirstNewNames(fields: seq<Field>, known: set<string>): seq<string> {
    if |fields| == 0 then []
    else if fields[0].name in known then FirstNewNames(fields[1..], known)
    else [fields[0].name] + FirstNewNames(fields[1..], known + {fields[0].name})
  }

  /** Assigning a field keeps the key order, appending the name only when it is new. */
  lemma PutNames(fields: seq<Field>, f: Field)
    ensures NamesOf(Put(fields, f)) ==
      if f.name in FieldNames(fields) then NamesOf(fields) else NamesOf(fields) + [f.name]
  {
    var i := IndexOfName(fields, f.name);
    if i < |fields| {
      assert fields[i] in fields;
      assert Put(fields, f) == fields[i := f];
    } else {
      assert f.name !in FieldNames(fields) by {
        forall g | g in fields ensures g.name != f.name {
          var j :| 0 <= j < |fields| && fields[j] == g;
        }
      }
    }
  }

  /**
   * A successful run of extension fields keeps the names of `acc` in their
   * order and appends each added name that is new, once, in the order it
   * first occurs among the added fields.
   */
  lemma {:induction false} AddExtensionFieldsOrder(b: Builder, typeName: string, oldNames: set<string>,
                                                   acc: seq<Field>, added: seq<Field>)
    requires AddExtensionFields(b, typeName, oldNames, acc, added).Success?
    ensures NamesOf(AddExtensionFields(b, typeName, oldNames, acc, added).value)
         == NamesOf(acc) + FirstNewNames(added, FieldNames(acc))
    decreases |added|
  {
    if |added| > 0 {
      var f := added[0];
      var acc' := Put(acc, f);
      assert AddExtensionFields(b, typeName, oldNames, acc, added) == AddExtensionFields(b, typeName, oldNames, acc', added[1..]);
      AddExtensionFieldsOrder(b, typeName, oldNames, acc', added[1..]);
      PutThenNewNames(acc, added);
    }
  }

  /** One step of `AddExtensionFieldsOrder`: assigning the first added field. */
  lemma PutThenNewNames(acc: seq<Field>, added: seq<Field>)
    requires |added| > 0
    ensures var acc' := Put(acc, added[0]);
      NamesOf(acc') + FirstNewNames(added[1..], FieldNames(acc'))
      == NamesOf(acc) + FirstNewNames(added, FieldNames(acc))
  {
    PutNames(acc, added[0]);
    var acc' := Put(acc, added[0]);
    FirstNewNamesStep(NamesOf(acc), FieldNames(acc), NamesOf(acc'), FieldNames(acc'), added);
  }

  /** The same step, stated on names and name sets alone. */
  lemma FirstNewNamesStep(names: seq<string>, known: set<string>, names': seq<string>, known': set<string>,
                          added: seq<Field>)
    requires |added| > 0
    requires known' == known + {added[0].name}
    requires names' == if added[0].name in known then names else names + [added[0].name]
    ensures names' + FirstNewNames(added[1..], known') == names + FirstNewNames(added, known)
  {
    var n := added[0].name;
    var rest := FirstNewNames(added[1..], known');
    if n in known {
      assert known' == known;
      assert FirstNewNames(added, known) == rest;
    } else {
      assert FirstNewNames(added, known) == [n] + rest;
      assert names + [n] + rest == names + ([n] + rest);
    }
  }

  /**
   * What a successful run of extension fields leaves: every name of `acc`
   * and of `added`, each once, where a name some added field carries holds
   * the LAST added field of that name, and every other name keeps its entry
   * from `acc` at its position.
   */
  lemma AddExtensionFieldsResult(b: Builder, typeName: string, oldNames: set<string>,
                                 acc: seq<Field>, added: seq<Field>)
    requires DistinctFieldNames(acc)
    requires AddExtensionFields(b, typeName, oldNames, acc, added).Success?
    ensures var r := AddExtensionFields(b, typeName, oldNames, acc, added).value;
      && DistinctFieldNames(r)
      && FieldNames(r) == FieldNames(acc) + FieldNames(added)
      && |acc| <= |r|
      && (forall i :: 0 <= i < |r| && LastNamed(added, r[i].name).Some? ==> r[i] == LastNamed(added, r[i].name).value)
      && (forall i :: 0 <= i < |r| && LastNamed(added, r[i].name).None? ==> i < |acc| && r[i] == acc[i])
      && (forall i :: 0 <= i < |acc| && acc[i].name !in FieldNames(added) ==> r[i] == acc[i])
  {
    AddExtensionFieldsNames(b, typeName, oldNames, acc, added);
    AddExtensionFieldsLast(b, typeName, oldNames, acc, added);
    AddExtensionFieldsKeeps(b, typeName, oldNames, acc, added);
  }

  /**
   * An extension field whose name is a field of the original type makes the
   * merge fail.
   */
  lemma ExtendFieldMapRejectsOriginalName(b: Builder, typeName: string, original: seq<Field>,
                                          exts: seq<ObjectExtension>, j: nat)
    requires j < |AllFields(exts)| && AllFields(exts)[j].name in FieldNames(original)
    ensures ExtendFieldMap(b, typeName, original, exts).Failure?
  {
    if ExtendOldFields(b, original).Success? {
      AddExtensionFieldsSucceedsIff(b, typeName, FieldNames(original), original, AllFields(exts));
    }
  }

  /**
   * The merged field map: the original fields first, unchanged and in their
   * order, then the added names, each holding the last extension field of
   * that name; every name occurs once.
   */
  lemma ExtendFieldMapResult(b: Builder, typeName: string, original: seq<Field>, exts: seq<ObjectExtension>)
    requires DistinctFieldNames(original)
    requires ExtendFieldMap(b, typeName, original, exts).Success?
    ensures var r := ExtendFieldMap(b, typeName, original, exts).value;
      && |original| <= |r| && r[..|original|] == original
      && FieldNames(r) == FieldNames(original) + FieldNames(AllFields(exts))
      && DistinctFieldNames(r)
      && (forall i :: |original| <= i < |r| ==> LastNamed(AllFields(exts), r[i].name) == Some(r[i]))
      && NamesOf(r) == NamesOf(original) + FirstNewNames(AllFields(exts), FieldNames(original))
  {
    var added := AllFields(exts);
    var r := ExtendFieldMap(b, typeName, original, exts).value;
    assert r == AddExtensionFields(b, typeName, FieldNames(original), original, added).value;
    AddExtensionFieldsSucceedsIff(b, typeName, FieldNames(original), original, added);
    AddExtensionFieldsResult(b, typeName, FieldNames(original), original, added);
    AddExtensionFieldsOrder(b, typeName, FieldNames(original), original, added);
    assert forall x :: x in FieldNames(added) ==> x !in FieldNames(original);
    forall i | 0 <= i < |original| ensures r[i] == original[i] {
      assert original[i].name in FieldNames(original);
    }
    forall i | |original| <= i < |r| ensures LastNamed(added, r[i].name) == Some(r[i]) { }
  }

  /** The merge succeeds exactly when no added name is original and every reference resolves. */
  lemma ExtendFieldMapSucceedsIff(b: Builder, typeName: string, original: seq<Field>, exts: seq<ObjectExtension>)
    ensures ExtendFieldMap(b, typeName, original, exts).Success? <==>
      && (forall i :: 0 <= i < |original| ==> Innermost(original[i].fieldType) in Known(b))
      && (forall j :: 0 <= j < |AllFields(exts)| ==>
            AllFields(exts)[j].name !in FieldNames(original) && FieldRefsIn(AllFields(exts)[j], Known(b)))
  {
    var base := ExtendOldFields(b, original);
    if base.Success? {
      assert base.value == original;
      AddExtensionFieldsSucceedsIff(b, typeName, FieldNames(original), original, AllFields(exts));
      assert ExtendFieldMap(b, typeName, original, exts) == AddExtensionFields(b, typeName, FieldNames(original), original, AllFields(exts));
    }
  }

  /**
   * Appending interfaces succeeds exactly when every added name resolves,
   * none is already in the list and none repeats; the result is the list
   * followed by the added names in order.
   */
  lemma {:induction false} AddInterfacesSpec(b: Builder, typeName: string, acc: seq<string>, added: seq<string>)
    ensures AddInterfaces(b, typeName, acc, added).Success? <==>
      && NamesIn(added, Known(b))
      && (forall i :: 0 <= i < |added| ==> added[i] !in acc)
      && Distinct(added)
    ensures AddInterfaces(b, typeName, acc, added).Success? ==>
      AddInterfaces(b, typeName, acc, added).value == acc + added
    decreases |added|
  {
    if |added| > 0 {
      var rest := added[1..];
      AddInterfacesSpec(b, typeName, acc + [added[0]], rest);
      assert forall i :: 0 < i < |added| ==> added[i] == rest[i - 1];
      assert acc + [added[0]] + rest == acc + added;
      if added[0] !in acc && added[0] in Known(b) && AddInterfaces(b, typeName, acc, added).Failure? {
        // a failure further on: some added name is unknown, already present or repeated
        assert !(NamesIn(rest, Known(b)) && (forall i :: 0 <= i < |rest| ==> rest[i] !in acc + [added[0]]) && Distinct(rest));
      }
    }
  }

  /**
   * The interface list of an extended object: the original interfaces in
   * order, then each extension's interfaces in extension order; it fails
   * exactly when some name does not resolve, an added name is already
   * implemented, or an added name is added twice.
   */
  lemma ExtendImplementedInterfacesSpec(b: Builder, typeName: string, original: seq<string>, exts: seq<ObjectExtension>)
    ensures ExtendImplementedInterfaces(b, typeName, original, exts).Success? <==>
      && NamesIn(original, Known(b))
      && NamesIn(AllInterfaces(exts), Known(b))
      && (forall i :: 0 <= i < |AllInterfaces(exts)| ==> AllInterfaces(exts)[i] !in original)
      && Distinct(AllInterfaces(exts))
    ensures ExtendImplementedInterfaces(b, typeName, original, exts).Success? ==>
      ExtendImplementedInterfaces(b, typeName, original, exts).value == original + AllInterfaces(exts)
  {
    AddInterfacesSpec(b, typeName, original, AllInterfaces(exts));
  }

  /**
   * A rebuilt object type: its interfaces grow by the extensions'
   * interfaces, its fields keep the original ones as a prefix and gain the
   * extension fields, and it records every extension node, an empty
   * extension included.
   */
  lemma ExtendObjectType(b: Builder, t: NamedType)
    requires t.ObjectType? && DistinctFieldNames(t.fields)
    requires ExtendType(b, t).Success?
    ensures var r := ExtendType(b, t).value; var exts := ExtensionsFor(b, t.name);
      && r.ObjectType?
      && r.interfaces == t.interfaces + AllInterfaces(exts)
      && r.extensionNodes == t.extensionNodes + exts
      && |t.fields| <= |r.fields| && r.fields[..|t.fields|] == t.fields
      && FieldNames(r.fields) == FieldNames(t.fields) + FieldNames(AllFields(exts))
      && DistinctFieldNames(r.fields)
      && NamesOf(r.fields) == NamesOf(t.fields) + FirstNewNames(AllFields(exts), FieldNames(t.fields))
  {
    var exts := ExtensionsFor(b, t.name);
    ExtendImplementedInterfacesSpec(b, t.name, t.interfaces, exts);
    ExtendFieldMapResult(b, t.name, t.fields, exts);
  }

  /** A type that no extension targets and whose references resolve is rebuilt as itself. */
  lemma UnextendedTypeUnchanged(b: Builder, t: NamedType)
    requires ExtensionsFor(b, t.name) == []
    requires RefsIn(t, Known(b))
    ensures ExtendType(b, t) == Success(t)
  {
    var exts := ExtensionsFor(b, t.name);
    assert AllFields(exts) == [] && AllInterfaces(exts) == [];
    match t
    case ObjectType(name, fields, interfaces, extensionNodes, payload) =>
      ExtendImplementedInterfacesSpec(b, name, interfaces, exts);
      assert extensionNodes + exts == extensionNodes;
    case _ =>
  }
}
