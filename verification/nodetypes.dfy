/** The node type definitions the client hands out: the user-defined ones
    read from the type tables, merged with the standard ones by name. */
module NodeTypes {
  import opened Wrappers
  import opened Text
  import opened OrderedMaps
  import opened Schema

  /** A property definition as the client returns it. */
  datatype PropDefData = PropDefData(
    declaringNodeType: string, name: string, isAutoCreated: bool, isMandatory: bool,
    isProtected: bool, onParentVersion: int, requiredType: int, multiple: bool,
    isFulltextSearchable: bool, isQueryOrderable: bool, defaultValue: seq<Option<string>>)

  /** A child node definition as the client returns it. */
  datatype ChildDefData = ChildDefData(
    declaringNodeType: string, name: string, isAutoCreated: bool, isMandatory: bool,
    isProtected: bool, onParentVersion: int, allowsSameNameSiblings: bool,
    defaultPrimaryTypeName: Option<string>, requiredPrimaryTypeNames: seq<string>)

  /** A node type definition as the client returns it. */
  datatype TypeData = TypeData(
    name: string, isAbstract: bool, isMixin: bool, isQueryable: bool,
    hasOrderableChildNodes: bool, primaryItemName: Option<string>,
    declaredSuperTypeNames: seq<string>, declaredPropertyDefinitions: seq<PropDefData>,
    declaredNodeDefinitions: seq<ChildDefData>)

  /** array_filter: the pieces that are not falsy ("" or "0"), in order. */
  function TruthyPieces(parts: seq<string>): (r: seq<string>)
    ensures forall x :: x in r <==> x in parts && PhpTruthy(x)
    ensures |r| <= |parts|
    decreases |parts|
  {
    if |parts| == 0 then []
    else
      assert parts == [parts[0]] + parts[1..];
      if PhpTruthy(parts[0]) then [parts[0]] + TruthyPieces(parts[1..]) else TruthyPieces(parts[1..])
  }

  /** A space-separated list of names, as stored in the type tables. */
  function NameList(s: string): seq<string>
  {
    TruthyPieces(Split(s, ' '))
  }

  function PropData(t: TypeNodeRow, p: TypePropRow): PropDefData
  {
    PropDefData(t.name, p.name, p.autoCreated, p.mandatory, p.isProtected, p.onParentVersion,
                p.requiredType, p.multiple, p.fulltextSearchable, p.queryOrderable, [p.defaultValue])
  }

  function ChildData(t: TypeNodeRow, c: TypeChildRow): ChildDefData
  {
    ChildDefData(t.name, c.name, c.autoCreated, c.mandatory, c.isProtected, c.onParentVersion,
                 false, c.defaultType, NameList(c.primaryTypes))
  }

  /** SELECT * FROM phpcr_type_childs WHERE node_type_id = ?, in table order. */
  function ChildrenOf(t: TypeNodeRow, cs: seq<TypeChildRow>): (r: seq<ChildDefData>)
    ensures |r| <= |cs|
    ensures forall i :: 0 <= i < |r| ==> exists j :: 0 <= j < |cs| && cs[j].typeId == t.typeId && r[i] == ChildData(t, cs[j])
    ensures forall j :: 0 <= j < |cs| && cs[j].typeId == t.typeId ==> ChildData(t, cs[j]) in r
    decreases |cs|
  {
    if |cs| == 0 then []
    else
      var rest := ChildrenOf(t, cs[1..]);
      assert forall j :: 1 <= j < |cs| ==> cs[j] == cs[1..][j - 1];
      if cs[0].typeId == t.typeId then [ChildData(t, cs[0])] + rest else rest
  }

  /** One user type: the type row, the property row of its id (the table
      holds at most one), its child rows. */
  function UserType(db: Db, t: TypeNodeRow): TypeData
  {
    TypeData(t.name, t.isAbstract, t.isMixin, t.queryable, t.orderableChildNodes, t.primaryItem,
             NameList(t.supertypes),
             if t.typeId in db.typeProps then [PropData(t, db.typeProps[t.typeId])] else [],
             ChildrenOf(t, db.typeChilds))
  }

  /** fetchUserNodeTypes: a loop over the type rows in table order,
      assigning each user type under its name. */
  function FetchUserNodeTypes(db: Db): OMap<string, TypeData>
  {
    PutAll([], UserEntries(db))
  }

  /** The (name, user type) pair of every type row, in table order. */
  function UserEntries(db: Db): (r: OMap<string, TypeData>)
    ensures |r| == |db.typeNodes|
    ensures forall i :: 0 <= i < |r| ==> r[i] == (db.typeNodes[i].name, UserType(db, db.typeNodes[i]))
  {
    seq(|db.typeNodes|, i requires 0 <= i < |db.typeNodes| => (db.typeNodes[i].name, UserType(db, db.typeNodes[i])))
  }

  /** The standard types keyed by name: a loop assigning each under its
      name, so a later definition of a name replaces an earlier one. */
  function ByName(types: seq<TypeData>): OMap<string, TypeData>
  {
    PutAll([], NamedEntries(types))
  }

  function NamedEntries(types: seq<TypeData>): (r: OMap<string, TypeData>)
    ensures |r| == |types|
    ensures forall i :: 0 <= i < |r| ==> r[i] == (types[i].name, types[i])
  {
    seq(|types|, i requires 0 <= i < |types| => (types[i].name, types[i]))
  }

  /** getNodeTypes. `standard` is the standard type list of the PHPCR
      library. With no names requested, the standard types followed by the
      user types whose name is not standard; with names, the same
      restricted to those names. */
  function GetNodeTypes(db: Db, standard: seq<TypeData>, names: seq<string>): seq<TypeData>
  {
    var std := ByName(standard);
    var user := FetchUserNodeTypes(db);
    if |names| > 0 then
      var wanted := set x | x in names;
      Values(Union(Restrict(std, wanted), Restrict(user, wanted)))
    else
      Values(Union(std, user))
  }

  /* ---------------------------------------------------------------------
     Lemmas
     --------------------------------------------------------------------- */

  /** Every entry of a map sits under its own name. */
  predicate KeyedByName(m: OMap<string, TypeData>)
  {
    forall k :: k in Keys(m) ==> Get(m, k).value.name == k
  }

  /** Every pair of a list is a type and its own name. */
  predicate SelfNamed(kvs: OMap<string, TypeData>)
  {
    forall i :: 0 <= i < |kvs| ==> kvs[i].1.name == kvs[i].0
  }

  /** Assigning types under their own names keeps a map keyed by name. */
  lemma {:induction false} PutAllByName(m: OMap<string, TypeData>, kvs: OMap<string, TypeData>)
    requires KeyedByName(m) && SelfNamed(kvs)
    ensures KeyedByName(PutAll(m, kvs))
    decreases |kvs|
  {
    if |kvs| > 0 {
      var m1 := Put(m, kvs[0].0, kvs[0].1);
      assert PutAll(m, kvs) == PutAll(m1, kvs[1..]);
      assert KeyedByName(m1) by {
        forall k | k in Keys(m1) ensures Get(m1, k).value.name == k {
          if k != kvs[0].0 {
            assert Get(m1, k) == Get(m, k) && k in Keys(m);
          }
        }
      }
      assert SelfNamed(kvs[1..]) by {
        forall i | 0 <= i < |kvs| - 1 ensures kvs[1..][i].1.name == kvs[1..][i].0 {
          assert kvs[1..][i] == kvs[i + 1];
        }
      }
      PutAllByName(m1, kvs[1..]);
    } else {
      assert PutAll(m, kvs) == m;
    }
  }

  /** The map a loop of assignments under own names builds: unique keys,
      each entry under its own name, and exactly the names of the list. */
  lemma {:induction false} EntriesShape(kvs: OMap<string, TypeData>)
    requires SelfNamed(kvs)
    ensures UniqueKeys(PutAll([], kvs)) && KeyedByName(PutAll([], kvs))
    ensures forall k :: k in Keys(PutAll([], kvs)) <==> exists i :: 0 <= i < |kvs| && kvs[i].0 == k
  {
    PutAllUnique([], kvs);
    PutAllByName([], kvs);
    forall k ensures k in Keys(PutAll([], kvs)) <==> exists i :: 0 <= i < |kvs| && kvs[i].0 == k {
      PutAllKeys([], kvs, k);
      if exists i :: 0 <= i < |kvs| && kvs[i].0 == k {
        var i :| 0 <= i < |kvs| && kvs[i].0 == k;
        assert Keys(kvs)[i] == k;
      }
    }
  }

  lemma {:induction false} ByNameShape(types: seq<TypeData>)
    ensures UniqueKeys(ByName(types)) && KeyedByName(ByName(types))
    ensures forall k :: k in Keys(ByName(types)) <==> exists i :: 0 <= i < |types| && types[i].name == k
  {
    var kvs := NamedEntries(types);
    EntriesShape(kvs);
    forall k ensures k in Keys(ByName(types)) <==> exists i :: 0 <= i < |types| && types[i].name == k {
      if exists i :: 0 <= i < |types| && types[i].name == k {
        var i :| 0 <= i < |types| && types[i].name == k;
        assert kvs[i].0 == k;
      }
    }
  }

  /** The user types: unique, each under its own name, one per type row
      name. */
  lemma {:induction false} FetchShape(db: Db)
    ensures UniqueKeys(FetchUserNodeTypes(db)) && KeyedByName(FetchUserNodeTypes(db))
    ensures forall k :: k in Keys(FetchUserNodeTypes(db)) <==> exists j :: 0 <= j < |db.typeNodes| && db.typeNodes[j].name == k
  {
    var kvs := UserEntries(db);
    assert SelfNamed(kvs) by {
      forall i | 0 <= i < |kvs| ensures kvs[i].1.name == kvs[i].0 {
        assert kvs[i].1 == UserType(db, db.typeNodes[i]);
      }
    }
    EntriesShape(kvs);
    forall k ensures k in Keys(FetchUserNodeTypes(db)) <==> exists j :: 0 <= j < |db.typeNodes| && db.typeNodes[j].name == k {
      if exists j :: 0 <= j < |db.typeNodes| && db.typeNodes[j].name == k {
        var j :| 0 <= j < |db.typeNodes| && db.typeNodes[j].name == k;
        assert kvs[j].0 == k;
      }
    }
  }

  /** A user type carries what its rows say: at most one property
      definition, because the property table is keyed by the type id, and
      a default value list of exactly one entry, null when the column is. */
  lemma {:induction false} UserTypeFromRows(db: Db, i: nat)
    requires TypeNodesUnique(db.typeNodes) && i < |db.typeNodes|
    ensures var t := db.typeNodes[i];
      var u := Get(FetchUserNodeTypes(db), t.name);
      && u == Some(UserType(db, t))
      && |u.value.declaredPropertyDefinitions| <= 1
      && (forall p :: p in u.value.declaredPropertyDefinitions ==> |p.defaultValue| == 1 && p.declaringNodeType == t.name)
  {
    var t := db.typeNodes[i];
    var kvs := UserEntries(db);
    assert UniqueKeys(kvs) by {
      forall a, b | 0 <= a < b < |kvs| ensures kvs[a].0 != kvs[b].0 {
        assert kvs[a].0 == db.typeNodes[a].name && kvs[b].0 == db.typeNodes[b].name;
      }
    }
    PutAllGet([], kvs, t.name);
    assert Keys(kvs)[i] == t.name;
    GetAt(kvs, i);
  }

  /** What getNodeTypes returns under a name: nothing unless the name is
      requested (or none is); otherwise the standard type when there is
      one, and only then the user type. */
  lemma {:induction false} MergedLookup(db: Db, standard: seq<TypeData>, names: seq<string>, k: string)
    ensures var m := MergedMap(db, standard, names);
      Get(m, k) ==
        if |names| > 0 && k !in names then None
        else if k in Keys(ByName(standard)) then Get(ByName(standard), k)
        else Get(FetchUserNodeTypes(db), k)
  {
    var std := ByName(standard);
    var user := FetchUserNodeTypes(db);
    if |names| > 0 {
      var wanted := set x | x in names;
      UnionGet(Restrict(std, wanted), Restrict(user, wanted), k);
    } else {
      UnionGet(std, user, k);
    }
  }

  /** The map getNodeTypes takes the values of. */
  function MergedMap(db: Db, standard: seq<TypeData>, names: seq<string>): (r: OMap<string, TypeData>)
    ensures GetNodeTypes(db, standard, names) == Values(r)
  {
    var std := ByName(standard);
    var user := FetchUserNodeTypes(db);
    if |names| > 0 then
      var wanted := set x | x in names;
      Union(Restrict(std, wanted), Restrict(user, wanted))
    else
      Union(std, user)
  }

  lemma {:induction false} MergedShape(db: Db, standard: seq<TypeData>, names: seq<string>)
    ensures UniqueKeys(MergedMap(db, standard, names)) && KeyedByName(MergedMap(db, standard, names))
  {
    var std := ByName(standard);
    var user := FetchUserNodeTypes(db);
    ByNameShape(standard);
    FetchShape(db);
    var m := MergedMap(db, standard, names);
    if |names| > 0 {
      var wanted := set x | x in names;
      RestrictKeepsUnique(std, wanted);
      UnionUnique(Restrict(std, wanted), Restrict(user, wanted));
    } else {
      UnionUnique(std, user);
    }
    forall k | k in Keys(m) ensures Get(m, k).value.name == k {
      MergedLookup(db, standard, names, k);
    }
  }

  /** getNodeTypes: no two results share a name; a name is answered when
      it is requested (or nothing is) and some standard or user type has
      it; and on a clash the standard type wins. */
  lemma {:induction false} StandardTypesWin(db: Db, standard: seq<TypeData>, names: seq<string>, k: string)
    ensures var r := GetNodeTypes(db, standard, names);
      && (forall i, j :: 0 <= i < j < |r| ==> r[i].name != r[j].name)
      && ((exists i :: 0 <= i < |r| && r[i].name == k) <==>
            (|names| == 0 || k in names)
            && ((exists i :: 0 <= i < |standard| && standard[i].name == k)
                || (exists j :: 0 <= j < |db.typeNodes| && db.typeNodes[j].name == k)))
      && (forall i :: 0 <= i < |r| && r[i].name == k && (exists s :: s in standard && s.name == k) ==>
            Get(ByName(standard), k) == Some(r[i]))
  {
    ResultNamesDistinct(db, standard, names);
    ResultNames(db, standard, names, k);
    StandardWins(db, standard, names, k);
  }

  /** Result `i` is entry `i` of the merged map, under its own name. */
  lemma {:induction false} ResultEntries(db: Db, standard: seq<TypeData>, names: seq<string>)
    ensures var m := MergedMap(db, standard, names);
      var r := GetNodeTypes(db, standard, names);
      && UniqueKeys(m) && |r| == |m|
      && forall i :: 0 <= i < |r| ==> r[i] == m[i].1 && r[i].name == m[i].0 && Get(m, m[i].0) == Some(r[i])
  {
    var m := MergedMap(db, standard, names);
    var r := GetNodeTypes(db, standard, names);
    MergedShape(db, standard, names);
    forall i | 0 <= i < |r| ensures r[i] == m[i].1 && r[i].name == m[i].0 && Get(m, m[i].0) == Some(r[i]) {
      GetAt(m, i);
      assert m[i].0 == Keys(m)[i];
    }
  }

  lemma {:induction false} ResultNamesDistinct(db: Db, standard: seq<TypeData>, names: seq<string>)
    ensures var r := GetNodeTypes(db, standard, names);
      forall i, j :: 0 <= i < j < |r| ==> r[i].name != r[j].name
  {
    ResultEntries(db, standard, names);
  }

  lemma {:induction false} ResultNames(db: Db, standard: seq<TypeData>, names: seq<string>, k: string)
    ensures var r := GetNodeTypes(db, standard, names);
      (exists i :: 0 <= i < |r| && r[i].name == k) <==>
        (|names| == 0 || k in names)
        && ((exists i :: 0 <= i < |standard| && standard[i].name == k)
            || (exists j :: 0 <= j < |db.typeNodes| && db.typeNodes[j].name == k))
  {
    ResultHasName(db, standard, names, k);
    MergedLookup(db, standard, names, k);
    ByNameShape(standard);
    FetchShape(db);
  }

  /** Some result carries a name exactly when the merged map holds it. */
  lemma {:induction false} ResultHasName(db: Db, standard: seq<TypeData>, names: seq<string>, k: string)
    ensures var r := GetNodeTypes(db, standard, names);
      (exists i :: 0 <= i < |r| && r[i].name == k) <==> Get(MergedMap(db, standard, names), k).Some?
  {
    var m := MergedMap(db, standard, names);
    var r := GetNodeTypes(db, standard, names);
    ResultEntries(db, standard, names);
    if exists i :: 0 <= i < |r| && r[i].name == k {
      var i :| 0 <= i < |r| && r[i].name == k;
      assert Keys(m)[i] == k;
    }
    if Get(m, k).Some? {
      var i :| 0 <= i < |m| && Keys(m)[i] == k;
      assert r[i].name == k;
    }
  }

  lemma {:induction false} StandardWins(db: Db, standard: seq<TypeData>, names: seq<string>, k: string)
    ensures var r := GetNodeTypes(db, standard, names);
      forall i :: 0 <= i < |r| && r[i].name == k && (exists s :: s in standard && s.name == k) ==>
        Get(ByName(standard), k) == Some(r[i])
  {
    var r := GetNodeTypes(db, standard, names);
    ResultEntries(db, standard, names);
    MergedLookup(db, standard, names, k);
    ByNameShape(standard);
    forall i | 0 <= i < |r| && r[i].name == k && (exists s :: s in standard && s.name == k)
      ensures Get(ByName(standard), k) == Some(r[i])
    {
      var s :| s in standard && s.name == k;
      var p :| 0 <= p < |standard| && standard[p] == s;
    }
  }
}
