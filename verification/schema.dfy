/** The tables of the repository schema as records, with the keys,
    uniqueness indexes and cascading foreign keys of the schema definition
    as a well-formedness predicate, and the read queries the client runs on
    the node table. Node rows are kept in insertion order, which is also
    increasing id order; an unordered SELECT reads them in that order. */
module Schema {
  import opened Wrappers
  import opened Text
  import opened Codec

  /** A row of phpcr_nodes. `sortOrder` is nullable. */
  datatype NodeRow = NodeRow(
    id: nat,
    path: string,
    parent: string,
    localName: string,
    namespace: string,
    workspace: string,
    identifier: string,
    nodeType: string,
    depth: int,
    props: Document,
    sortOrder: Option<int>)

  /** A row of phpcr_binarydata: one chunk of a binary property. */
  datatype BinaryRow = BinaryRow(nodeId: nat, propertyName: string, workspace: string, idx: nat, data: string)

  /** A row of phpcr_nodes_foreignkeys: a reference edge and its type. */
  datatype Edge = Edge(sourceId: nat, propertyName: string, targetId: nat, kind: PropType)

  /** A row of phpcr_type_nodes. */
  datatype TypeNodeRow = TypeNodeRow(
    typeId: nat, name: string, supertypes: string, isAbstract: bool, isMixin: bool,
    queryable: bool, orderableChildNodes: bool, primaryItem: Option<string>)

  /** A row of phpcr_type_props; the table is keyed by node_type_id. */
  datatype TypePropRow = TypePropRow(
    name: string, isProtected: bool, autoCreated: bool, mandatory: bool, onParentVersion: int,
    multiple: bool, fulltextSearchable: bool, queryOrderable: bool, requiredType: int,
    defaultValue: Option<string>)

  /** A row of phpcr_type_childs. */
  datatype TypeChildRow = TypeChildRow(
    typeId: nat, name: string, isProtected: bool, autoCreated: bool, mandatory: bool,
    onParentVersion: int, primaryTypes: string, defaultType: Option<string>)

  /** The whole database. `namespaces` is keyed by its primary key prefix,
      `workspaces` by name, `typeProps` by node_type_id. */
  datatype Db = Db(
    namespaces: map<string, string>,
    workspaces: set<string>,
    nodes: seq<NodeRow>,
    binaries: set<BinaryRow>,
    edges: set<Edge>,
    nextId: nat,
    typeNodes: seq<TypeNodeRow>,
    typeProps: map<nat, TypePropRow>,
    typeChilds: seq<TypeChildRow>)

  /* ---------------------------------------------------------------------
     Well-formedness: the keys and constraints of the schema
     --------------------------------------------------------------------- */

  /** Unique index on (path, workspace_name). */
  predicate PathsUnique(nodes: seq<NodeRow>)
  {
    forall i, j :: 0 <= i < j < |nodes| ==>
      !(nodes[i].path == nodes[j].path && nodes[i].workspace == nodes[j].workspace)
  }

  /** Unique index on identifier, across all workspaces. */
  predicate IdentifiersUnique(nodes: seq<NodeRow>)
  {
    forall i, j :: 0 <= i < j < |nodes| ==> nodes[i].identifier != nodes[j].identifier
  }

  /** The auto-increment primary key: positive, increasing in insertion
      order and below the next value to hand out. */
  predicate IdsIncreasing(nodes: seq<NodeRow>, nextId: nat)
  {
    IdsAscending(nodes)
    && (forall i :: 0 <= i < |nodes| ==> 0 < nodes[i].id < nextId)
    && 0 < nextId
  }

  predicate IdsAscending(rows: seq<NodeRow>)
  {
    forall i, j :: 0 <= i < j < |rows| ==> rows[i].id < rows[j].id
  }

  predicate SameBinaryKey(a: BinaryRow, b: BinaryRow)
  {
    a.nodeId == b.nodeId && a.propertyName == b.propertyName && a.workspace == b.workspace && a.idx == b.idx
  }

  /** Unique index on (node_id, property_name, workspace_name, idx). */
  predicate BinaryKeysUnique(bs: set<BinaryRow>)
  {
    forall a, b :: a in bs && b in bs && SameBinaryKey(a, b) ==> a == b
  }

  predicate SameEdgeKey(a: Edge, b: Edge)
  {
    a.sourceId == b.sourceId && a.propertyName == b.propertyName && a.targetId == b.targetId
  }

  /** Primary key (source_id, source_property_name, target_id). */
  predicate EdgeKeysUnique(es: set<Edge>)
  {
    forall a, b :: a in es && b in es && SameEdgeKey(a, b) ==> a == b
  }

  predicate HasId(nodes: seq<NodeRow>, id: nat)
  {
    exists i :: 0 <= i < |nodes| && nodes[i].id == id
  }

  /** Both foreign keys of an edge resolve to node rows. */
  predicate EdgesResolve(nodes: seq<NodeRow>, es: set<Edge>)
  {
    forall e :: e in es ==> HasId(nodes, e.sourceId) && HasId(nodes, e.targetId)
  }

  /** Primary key node_type_id and unique name of phpcr_type_nodes. */
  predicate TypeNodesUnique(ts: seq<TypeNodeRow>)
  {
    forall i, j :: 0 <= i < j < |ts| ==> ts[i].typeId != ts[j].typeId && ts[i].name != ts[j].name
  }

  predicate Wf(db: Db)
  {
    PathsUnique(db.nodes)
    && IdentifiersUnique(db.nodes)
    && IdsIncreasing(db.nodes, db.nextId)
    && BinaryKeysUnique(db.binaries)
    && EdgeKeysUnique(db.edges)
    && EdgesResolve(db.nodes, db.edges)
    && TypeNodesUnique(db.typeNodes)
  }

  /** The constraints an insert or update into phpcr_nodes is checked
      against; a violation makes the statement fail. */
  predicate NodeConstraintsHold(nodes: seq<NodeRow>)
  {
    PathsUnique(nodes) && IdentifiersUnique(nodes)
  }

  /* ---------------------------------------------------------------------
     Node table queries
     --------------------------------------------------------------------- */

  /** The first row at `path` in workspace `ws`. */
  function FindRow(nodes: seq<NodeRow>, path: string, ws: string): (r: Option<NodeRow>)
    ensures r.Some? ==> r.value in nodes && r.value.path == path && r.value.workspace == ws
    ensures r.None? ==> forall i :: 0 <= i < |nodes| ==> !(nodes[i].path == path && nodes[i].workspace == ws)
  {
    if |nodes| == 0 then None
    else if nodes[0].path == path && nodes[0].workspace == ws then Some(nodes[0])
    else FindRow(nodes[1..], path, ws)
  }

  /** The first row with id `id`. */
  function FindById(nodes: seq<NodeRow>, id: nat): (r: Option<NodeRow>)
    ensures r.Some? ==> r.value in nodes && r.value.id == id
    ensures r.None? <==> !HasId(nodes, id)
  {
    if |nodes| == 0 then None
    else if nodes[0].id == id then Some(nodes[0])
    else
      var r := FindById(nodes[1..], id);
      assert r.None? ==> !HasId(nodes, id) by {
        if r.None? {
          forall i | 0 <= i < |nodes| ensures nodes[i].id != id {
            if i > 0 { assert nodes[i] == nodes[1..][i - 1]; }
          }
        }
      }
      r
  }

  /** The rows whose parent column is `parent`, in table order, from every
      workspace or from `ws` only. Table order is id order, so the children
      come out by ascending id. */
  function ChildRows(nodes: seq<NodeRow>, parent: string, ws: Option<string>): (r: seq<NodeRow>)
    ensures forall x :: x in r <==> x in nodes && x.parent == parent && (ws.Some? ==> x.workspace == ws.value)
    ensures IdsAscending(nodes) ==> IdsAscending(r)
  {
    if |nodes| == 0 then []
    else
      var rest := ChildRows(nodes[1..], parent, ws);
      assert forall x :: x in nodes <==> x == nodes[0] || x in nodes[1..];
      if nodes[0].parent == parent && (ws.Some? ==> nodes[0].workspace == ws.value)
      then [nodes[0]] + rest else rest
  }

  /** MAX(sort_order) over some rows: NULLs are ignored and no value gives
      NULL. */
  function MaxSortOrder(rows: seq<NodeRow>): (r: Option<int>)
    ensures r.None? <==> forall i :: 0 <= i < |rows| ==> rows[i].sortOrder.None?
    ensures r.Some? ==> (exists i :: 0 <= i < |rows| && rows[i].sortOrder == r)
    ensures r.Some? ==> forall i :: 0 <= i < |rows| && rows[i].sortOrder.Some? ==> rows[i].sortOrder.value <= r.value
  {
    if |rows| == 0 then None
    else
      var rest := MaxSortOrder(rows[1..]);
      assert forall i :: 1 <= i < |rows| ==> rows[i] == rows[1..][i - 1];
      var head := rows[0].sortOrder;
      if head.None? then
        assert rest.Some? ==> exists i :: 1 <= i < |rows| && rows[i].sortOrder == rest by {
          if rest.Some? {
            var k :| 0 <= k < |rows[1..]| && rows[1..][k].sortOrder == rest;
            assert rows[k + 1].sortOrder == rest;
          }
        }
        rest
      else if rest.None? || rest.value < head.value then head
      else
        assert exists i :: 1 <= i < |rows| && rows[i].sortOrder == rest by {
          var k :| 0 <= k < |rows[1..]| && rows[1..][k].sortOrder == rest;
          assert rows[k + 1].sortOrder == rest;
        }
        rest
  }

  /** ORDER BY sort_order ASC with NULLs first (MySQL and SQLite order). */
  predicate OrderLe(a: Option<int>, b: Option<int>)
  {
    a.None? || (b.Some? && a.value <= b.value)
  }

  predicate SortedByOrder(rows: seq<NodeRow>)
  {
    forall i, j :: 0 <= i < j < |rows| ==> OrderLe(rows[i].sortOrder, rows[j].sortOrder)
  }

  function InsertByOrder(x: NodeRow, rows: seq<NodeRow>): (r: seq<NodeRow>)
    requires SortedByOrder(rows)
    ensures SortedByOrder(r)
    ensures multiset(r) == multiset(rows) + multiset{x}
  {
    InsertKeepsRows(x, rows);
    InsertKeepsSorted(x, rows);
    Insert(x, rows)
  }

  /** The insertion itself: `x` before the first row it does not follow. */
  function Insert(x: NodeRow, rows: seq<NodeRow>): seq<NodeRow>
  {
    if |rows| == 0 then [x]
    else if OrderLe(x.sortOrder, rows[0].sortOrder) then [x] + rows
    else [rows[0]] + Insert(x, rows[1..])
  }

  lemma {:induction false} InsertKeepsRows(x: NodeRow, rows: seq<NodeRow>)
    ensures multiset(Insert(x, rows)) == multiset(rows) + multiset{x}
  {
    if |rows| > 0 && !OrderLe(x.sortOrder, rows[0].sortOrder) {
      InsertKeepsRows(x, rows[1..]);
      assert rows == [rows[0]] + rows[1..];
    }
  }

  lemma {:induction false} InsertKeepsSorted(x: NodeRow, rows: seq<NodeRow>)
    requires SortedByOrder(rows)
    ensures SortedByOrder(Insert(x, rows))
  {
    if |rows| == 0 {
    } else if OrderLe(x.sortOrder, rows[0].sortOrder) {
      SortedCons(x, rows);
    } else {
      var t := rows[1..];
      assert SortedByOrder(t) by {
        forall i, j | 0 <= i < j < |t| ensures OrderLe(t[i].sortOrder, t[j].sortOrder) {
          assert t[i] == rows[i + 1] && t[j] == rows[j + 1];
        }
      }
      InsertKeepsSorted(x, t);
      InsertKeepsRows(x, t);
      var rest := Insert(x, t);
      forall j | 0 <= j < |rest| ensures OrderLe(rows[0].sortOrder, rest[j].sortOrder) {
        assert rest[j] in multiset(rest);
        if rest[j] != x {
          assert rest[j] in multiset(t);
          var k :| 0 <= k < |t| && t[k] == rest[j];
          assert t[k] == rows[k + 1];
        }
      }
      SortedCons(rows[0], rest);
    }
  }

  lemma {:induction false} SortedCons(h: NodeRow, t: seq<NodeRow>)
    requires SortedByOrder(t)
    requires forall j :: 0 <= j < |t| ==> OrderLe(h.sortOrder, t[j].sortOrder)
    ensures SortedByOrder([h] + t)
  {
    var r := [h] + t;
    forall i, j | 0 <= i < j < |r| ensures OrderLe(r[i].sortOrder, r[j].sortOrder) {
      assert r[j] == t[j - 1];
      if i > 0 {
        assert r[i] == t[i - 1];
      }
    }
  }

  /** The rows in ascending sort order; ties keep no particular order. */
  function SortByOrder(rows: seq<NodeRow>): (r: seq<NodeRow>)
    ensures SortedByOrder(r)
    ensures multiset(r) == multiset(rows)
  {
    if |rows| == 0 then []
    else
      assert rows == [rows[0]] + rows[1..];
      InsertByOrder(rows[0], SortByOrder(rows[1..]))
  }

  /** Whether some row of `ws` sits at `path`. */
  predicate PathTaken(nodes: seq<NodeRow>, path: string, ws: string)
  {
    exists i :: 0 <= i < |nodes| && nodes[i].path == path && nodes[i].workspace == ws
  }

  predicate IdentifierTaken(nodes: seq<NodeRow>, identifier: string)
  {
    exists i :: 0 <= i < |nodes| && nodes[i].identifier == identifier
  }

  /** INSERT INTO phpcr_nodes: the row gets the next id, unless it clashes
      with the unique (path, workspace) or identifier index. */
  function InsertNode(db: Db, r: NodeRow): (res: Result<(Db, nat)>)
    ensures res.Err? <==> PathTaken(db.nodes, r.path, r.workspace) || IdentifierTaken(db.nodes, r.identifier)
    ensures res.Err? ==> res.error == BackendError
    ensures res.Ok? ==> res.value.1 == db.nextId
    ensures res.Ok? ==> res.value.0.nodes == db.nodes + [r.(id := db.nextId)]
    ensures res.Ok? ==> res.value.0 == db.(nodes := res.value.0.nodes, nextId := db.nextId + 1)
  {
    if PathTaken(db.nodes, r.path, r.workspace) || IdentifierTaken(db.nodes, r.identifier) then Err(BackendError)
    else Ok((db.(nodes := db.nodes + [r.(id := db.nextId)], nextId := db.nextId + 1), db.nextId))
  }

  /* ---------------------------------------------------------------------
     Lemmas
     --------------------------------------------------------------------- */

  /** With the unique (path, workspace) index, a path names at most one
      row per workspace. */
  lemma FindRowUnique(nodes: seq<NodeRow>, path: string, ws: string, i: nat)
    requires PathsUnique(nodes)
    requires i < |nodes| && nodes[i].path == path && nodes[i].workspace == ws
    ensures FindRow(nodes, path, ws) == Some(nodes[i])
  {
    if i > 0 {
      assert !(nodes[0].path == path && nodes[0].workspace == ws);
      assert PathsUnique(nodes[1..]) by {
        forall a, b | 0 <= a < b < |nodes[1..]|
          ensures !(nodes[1..][a].path == nodes[1..][b].path && nodes[1..][a].workspace == nodes[1..][b].workspace)
        {
          assert nodes[1..][a] == nodes[a + 1] && nodes[1..][b] == nodes[b + 1];
        }
      }
      FindRowUnique(nodes[1..], path, ws, i - 1);
    }
  }

  lemma HasIdAppend(nodes: seq<NodeRow>, r: NodeRow, id: nat)
    requires HasId(nodes, id)
    ensures HasId(nodes + [r], id)
  {
    var i :| 0 <= i < |nodes| && nodes[i].id == id;
    assert (nodes + [r])[i] == nodes[i];
  }

  /** Rows rewritten in place, keeping their ids: the keys on ids and the
      edges' foreign keys still hold. */
  lemma SameIdsKeepWf(db: Db, ns: seq<NodeRow>)
    requires Wf(db) && NodeConstraintsHold(ns) && |ns| == |db.nodes|
    requires forall i :: 0 <= i < |ns| ==> ns[i].id == db.nodes[i].id
    ensures Wf(db.(nodes := ns))
  {
    SameIdsKeepIncreasing(db.nodes, ns, db.nextId);
    SameIdsKeepEdges(db.nodes, ns, db.edges);
  }

  lemma SameIdsKeepIncreasing(nodes: seq<NodeRow>, ns: seq<NodeRow>, nextId: nat)
    requires IdsIncreasing(nodes, nextId) && |ns| == |nodes|
    requires forall i :: 0 <= i < |ns| ==> ns[i].id == nodes[i].id
    ensures IdsIncreasing(ns, nextId)
  {
  }

  lemma SameIdsKeepEdges(nodes: seq<NodeRow>, ns: seq<NodeRow>, es: set<Edge>)
    requires EdgesResolve(nodes, es) && |ns| == |nodes|
    requires forall i :: 0 <= i < |ns| ==> ns[i].id == nodes[i].id
    ensures EdgesResolve(ns, es)
  {
    forall e | e in es ensures HasId(ns, e.sourceId) && HasId(ns, e.targetId) {
      var a :| 0 <= a < |nodes| && nodes[a].id == e.sourceId;
      var b :| 0 <= b < |nodes| && nodes[b].id == e.targetId;
      assert ns[a].id == e.sourceId && ns[b].id == e.targetId;
    }
  }

  /** A successful insert keeps every constraint of the schema. */
  lemma InsertNodeKeepsWf(db: Db, r: NodeRow)
    requires Wf(db) && InsertNode(db, r).Ok?
    ensures Wf(InsertNode(db, r).value.0)
  {
    var db' := InsertNode(db, r).value.0;
    var ns := db'.nodes;
    assert ns == db.nodes + [r.(id := db.nextId)];
    assert forall i :: 0 <= i < |db.nodes| ==> ns[i] == db.nodes[i];
    assert PathsUnique(ns) by {
      forall i, j | 0 <= i < j < |ns| ensures !(ns[i].path == ns[j].path && ns[i].workspace == ns[j].workspace) {
        if j == |db.nodes| {
          assert !(db.nodes[i].path == r.path && db.nodes[i].workspace == r.workspace);
        }
      }
    }
    assert IdentifiersUnique(ns) by {
      forall i, j | 0 <= i < j < |ns| ensures ns[i].identifier != ns[j].identifier {
        if j == |db.nodes| {
          assert db.nodes[i].identifier != r.identifier;
        }
      }
    }
    forall e | e in db'.edges ensures HasId(ns, e.sourceId) && HasId(ns, e.targetId) {
      HasIdAppend(db.nodes, r.(id := db.nextId), e.sourceId);
      HasIdAppend(db.nodes, r.(id := db.nextId), e.targetId);
    }
  }
}
