/** Writing one node row: syncNode inserts a new row (with its namespace,
    local name and the next sort order among the parent's children) or
    rewrites the property document of an existing one, then rewrites the
    node's binary chunks and its reference edges. */
module Store {
  import opened Wrappers
  import opened Text
  import opened Paths
  import opened OrderedMaps
  import opened Codec
  import opened Schema
  import opened Sessions
  import opened Lookup
  import opened References

  /* ---------------------------------------------------------------------
     Binary chunks
     --------------------------------------------------------------------- */

  /** The rows of one binary property of one node in one workspace. */
  function KeyRows(bs: set<BinaryRow>, nodeId: nat, prop: string, ws: string): set<BinaryRow>
  {
    set b | b in bs && b.nodeId == nodeId && b.propertyName == prop && b.workspace == ws
  }

  /** DELETE FROM phpcr_binarydata for one property of one node. */
  function ClearChunks(bs: set<BinaryRow>, nodeId: nat, prop: string, ws: string): (r: set<BinaryRow>)
    ensures r == bs - KeyRows(bs, nodeId, prop, ws)
  {
    set b | b in bs && !(b.nodeId == nodeId && b.propertyName == prop && b.workspace == ws)
  }

  /** The inner loop of syncBinaryData: for every chunk from index `i` on,
      the property's rows are deleted and the chunk inserted. */
  function SyncChunks(bs: set<BinaryRow>, nodeId: nat, prop: string, ws: string, chunks: seq<string>, i: nat): set<BinaryRow>
    decreases |chunks| - i
  {
    if i >= |chunks| then bs
    else SyncChunks(ClearChunks(bs, nodeId, prop, ws) + {BinaryRow(nodeId, prop, ws, i, chunks[i])}, nodeId, prop, ws, chunks, i + 1)
  }

  /** syncBinaryData: the chunk lists of every property, in order. */
  function SyncBinaryData(bs: set<BinaryRow>, nodeId: nat, ws: string, data: OMap<string, seq<string>>): set<BinaryRow>
    decreases |data|
  {
    if |data| == 0 then bs
    else SyncBinaryData(SyncChunks(bs, nodeId, data[0].0, ws, data[0].1, 0), nodeId, ws, data[1..])
  }

  /** Because the delete sits inside the chunk loop, each chunk removes the
      one before it: only the last chunk of a property survives. */
  lemma {:induction false} SyncChunksKeepsLast(bs: set<BinaryRow>, nodeId: nat, prop: string, ws: string, chunks: seq<string>, i: nat)
    requires i < |chunks|
    ensures SyncChunks(bs, nodeId, prop, ws, chunks, i) ==
      ClearChunks(bs, nodeId, prop, ws) + {BinaryRow(nodeId, prop, ws, |chunks| - 1, chunks[|chunks| - 1])}
    decreases |chunks| - i
  {
    var next := ClearChunks(bs, nodeId, prop, ws) + {BinaryRow(nodeId, prop, ws, i, chunks[i])};
    if i + 1 < |chunks| {
      SyncChunksKeepsLast(next, nodeId, prop, ws, chunks, i + 1);
      assert ClearChunks(next, nodeId, prop, ws) == ClearChunks(bs, nodeId, prop, ws);
    }
  }

  lemma SyncChunksEmpty(bs: set<BinaryRow>, nodeId: nat, prop: string, ws: string)
    ensures SyncChunks(bs, nodeId, prop, ws, [], 0) == bs
  {
  }

  /** Writing the chunks of one property leaves the rows of every other
      property, node and workspace alone. */
  lemma SyncChunksFrame(bs: set<BinaryRow>, nodeId: nat, prop: string, ws: string, chunks: seq<string>, b: BinaryRow)
    requires !(b.nodeId == nodeId && b.propertyName == prop && b.workspace == ws)
    ensures b in SyncChunks(bs, nodeId, prop, ws, chunks, 0) <==> b in bs
  {
    if |chunks| > 0 {
      SyncChunksKeepsLast(bs, nodeId, prop, ws, chunks, 0);
    }
  }

  /** What syncBinaryData leaves for a property of distinct-keyed data: its
      last chunk alone, or the old rows when it has no chunk. */
  lemma {:induction false} SyncBinaryDataRows(bs: set<BinaryRow>, nodeId: nat, ws: string, data: OMap<string, seq<string>>, prop: string)
    requires UniqueKeys(data)
    ensures var cs := Get(data, prop);
      KeyRows(SyncBinaryData(bs, nodeId, ws, data), nodeId, prop, ws) ==
        if cs.Some? && |cs.value| > 0 then {BinaryRow(nodeId, prop, ws, |cs.value| - 1, cs.value[|cs.value| - 1])}
        else KeyRows(bs, nodeId, prop, ws)
    decreases |data|
  {
    if |data| > 0 {
      UniqueTail(data);
      var next := SyncChunks(bs, nodeId, data[0].0, ws, data[0].1, 0);
      SyncBinaryDataRows(next, nodeId, ws, data[1..], prop);
      if data[0].0 == prop {
        ChunksKeyRows(bs, nodeId, prop, ws, data[0].1);
      } else {
        ChunksOtherKeyRows(bs, nodeId, data[0].0, ws, data[0].1, prop);
      }
    }
  }

  /** The rows of the property whose chunks were written: the last chunk,
      or the old rows when there is none. */
  lemma ChunksKeyRows(bs: set<BinaryRow>, nodeId: nat, prop: string, ws: string, chunks: seq<string>)
    ensures KeyRows(SyncChunks(bs, nodeId, prop, ws, chunks, 0), nodeId, prop, ws) ==
      if |chunks| > 0 then {BinaryRow(nodeId, prop, ws, |chunks| - 1, chunks[|chunks| - 1])}
      else KeyRows(bs, nodeId, prop, ws)
  {
    if |chunks| > 0 {
      SyncChunksKeepsLast(bs, nodeId, prop, ws, chunks, 0);
    }
  }

  /** The rows of any other property are left alone. */
  lemma ChunksOtherKeyRows(bs: set<BinaryRow>, nodeId: nat, p: string, ws: string, chunks: seq<string>, prop: string)
    requires p != prop
    ensures KeyRows(SyncChunks(bs, nodeId, p, ws, chunks, 0), nodeId, prop, ws) == KeyRows(bs, nodeId, prop, ws)
  {
    var next := SyncChunks(bs, nodeId, p, ws, chunks, 0);
    forall b ensures b in KeyRows(next, nodeId, prop, ws) <==> b in KeyRows(bs, nodeId, prop, ws) {
      if b.nodeId == nodeId && b.propertyName == prop && b.workspace == ws {
        SyncChunksFrame(bs, nodeId, p, ws, chunks, b);
      }
    }
  }

  /** Rows of other nodes or other workspaces are never touched. */
  lemma {:induction false} SyncBinaryDataFrame(bs: set<BinaryRow>, nodeId: nat, ws: string, data: OMap<string, seq<string>>, b: BinaryRow)
    requires b.nodeId != nodeId || b.workspace != ws
    ensures b in SyncBinaryData(bs, nodeId, ws, data) <==> b in bs
    decreases |data|
  {
    if |data| > 0 {
      SyncChunksFrame(bs, nodeId, data[0].0, ws, data[0].1, b);
      SyncBinaryDataFrame(SyncChunks(bs, nodeId, data[0].0, ws, data[0].1, 0), nodeId, ws, data[1..], b);
    }
  }

  /** Deleting before every insert keeps the unique chunk index. */
  lemma {:induction false} SyncChunksKeepsKeys(bs: set<BinaryRow>, nodeId: nat, prop: string, ws: string, chunks: seq<string>)
    requires BinaryKeysUnique(bs)
    ensures BinaryKeysUnique(SyncChunks(bs, nodeId, prop, ws, chunks, 0))
  {
    if |chunks| > 0 {
      SyncChunksKeepsLast(bs, nodeId, prop, ws, chunks, 0);
    }
  }

  lemma {:induction false} SyncBinaryDataKeepsKeys(bs: set<BinaryRow>, nodeId: nat, ws: string, data: OMap<string, seq<string>>)
    requires BinaryKeysUnique(bs)
    ensures BinaryKeysUnique(SyncBinaryData(bs, nodeId, ws, data))
    decreases |data|
  {
    if |data| > 0 {
      SyncChunksKeepsKeys(bs, nodeId, data[0].0, ws, data[0].1);
      SyncBinaryDataKeepsKeys(SyncChunks(bs, nodeId, data[0].0, ws, data[0].1, 0), nodeId, ws, data[1..]);
    }
  }

  /* ---------------------------------------------------------------------
     syncNode
     --------------------------------------------------------------------- */

  /** UPDATE phpcr_nodes SET props = ? WHERE id = ?. */
  function UpdateProps(nodes: seq<NodeRow>, id: nat, doc: Document): (r: seq<NodeRow>)
    ensures |r| == |nodes|
    ensures forall i :: 0 <= i < |nodes| ==> r[i] == if nodes[i].id == id then nodes[i].(props := doc) else nodes[i]
  {
    seq(|nodes|, i requires 0 <= i < |nodes| => if nodes[i].id == id then nodes[i].(props := doc) else nodes[i])
  }

  /** The sort order a new child of `parent` gets: one more than the largest
      among the rows with that parent in every workspace, or 1. */
  function NextSortOrder(nodes: seq<NodeRow>, parent: string): (r: int)
    ensures forall x :: x in nodes && x.parent == parent && x.sortOrder.Some? ==> x.sortOrder.value < r
    ensures (forall x :: x in nodes && x.parent == parent ==> x.sortOrder.None?) ==> r == 1
    ensures r != 1 ==> exists x :: x in nodes && x.parent == parent && x.sortOrder == Some(r - 1)
  {
    var rows := ChildRows(nodes, parent, None);
    var m := MaxSortOrder(rows);
    assert forall x :: x in rows && x.sortOrder.Some? ==> x.sortOrder.value <= (if m.Some? then m.value else 0) by {
      forall x | x in rows && x.sortOrder.Some? ensures x.sortOrder.value <= (if m.Some? then m.value else 0) {
        var k :| 0 <= k < |rows| && rows[k] == x;
      }
    }
    assert m.Some? ==> exists x :: x in nodes && x.parent == parent && x.sortOrder == m by {
      if m.Some? {
        var k :| 0 <= k < |rows| && rows[k].sortOrder == m;
        assert rows[k] in rows;
      }
    }
    (if m.Some? then m.value else 0) + 1
  }

  /** The row a new node is inserted as (its id is assigned on insert). */
  function NewRow(s: Session, path: string, parent: string, namespace: string, local: string,
                  uuid: string, nodeType: string, depth: int, doc: Document): NodeRow
  {
    NodeRow(0, path, parent, local, namespace, s.workspace, uuid, nodeType, depth, doc,
            Some(NextSortOrder(s.db.nodes, parent)))
  }

  /** syncNode. `data` is an already encoded document (the copy passes
      one); otherwise the properties are encoded with `now` for dates. A
      missing identifier is generated. A new node clashing with the unique
      indexes is an "item exists" error; an existing node must have a row.
      The path's identifier is cached, then the binary chunks and the
      reference edges are rewritten. Any failure leaves everything as it
      was. */
  function SyncNode(s: Session, uuid: Option<string>, path: string, parent: string, nodeType: string,
                    isNew: bool, depth: int, ps: seq<Property>, data: Option<Encoded>, now: string): (r: Result<(Session, nat)>)
    ensures r.Ok? ==> r.value.0.workspace == s.workspace && r.value.0.loggedIn == s.loggedIn
    ensures r.Ok? && uuid.Some? ==> r.value.0.identifiers == s.identifiers[path := uuid.value]
    ensures r.Ok? ==> path in r.value.0.identifiers
    ensures !isNew && r.Ok? ==> PathExists(s, path) == Some(r.value.1)
    ensures !isNew && (data.Some? || EncodeAll(ps, now).Ok?) && PathExists(s, path).None? ==> r == Err(RepositoryError)
    ensures isNew && r.Ok? ==> r.value.1 == s.db.nextId
  {
    var enc :- if data.Some? then Ok(data.value) else EncodeAll(ps, now);
    var (id, s0) := if uuid.Some? then (uuid.value, s) else FreshUuid(s);
    var written :- WriteRow(s0, id, path, parent, nodeType, isNew, depth, enc.doc);
    AfterWrite(written.0, path, id, written.1, enc.binaryData, ps)
  }

  /** What syncNode does once the row is written: cache the identifier,
      rewrite the binary chunks, then the reference edges. */
  function AfterWrite(s1: Session, path: string, id: string, nodeId: nat,
                      binaryData: OMap<string, seq<string>>, ps: seq<Property>): (r: Result<(Session, nat)>)
    ensures r.Ok? ==> r.value.1 == nodeId && r.value.0.workspace == s1.workspace && r.value.0.loggedIn == s1.loggedIn
    ensures r.Ok? ==> r.value.0.identifiers == s1.identifiers[path := id]
  {
    var s2 := s1.(identifiers := s1.identifiers[path := id],
                  db := s1.db.(binaries := SyncBinaryData(s1.db.binaries, nodeId, s1.workspace, binaryData)));
    var db3 :- SyncForeignKeys(s2, nodeId, ps);
    Ok((s2.(db := db3), nodeId))
  }

  /** The insert or update of the row itself. */
  function WriteRow(s: Session, id: string, path: string, parent: string, nodeType: string,
                    isNew: bool, depth: int, doc: Document): (r: Result<(Session, nat)>)
    ensures r.Ok? ==> r.value.0 == s.(db := r.value.0.db, nsCache := r.value.0.nsCache)
    ensures r.Ok? ==> r.value.0.db.binaries == s.db.binaries && r.value.0.db.edges == s.db.edges
    ensures !isNew ==> r.Ok? == PathExists(s, path).Some?
    ensures !isNew && r.Ok? ==> r.value == (s.(db := s.db.(nodes := UpdateProps(s.db.nodes, r.value.1, doc))), PathExists(s, path).value)
    ensures !isNew && r.Err? ==> r.error == RepositoryError
    ensures isNew ==> (r.Err? <==>
      GetJcrName(s, path).Err? || PathTaken(s.db.nodes, path, s.workspace) || IdentifierTaken(s.db.nodes, id))
    ensures isNew && GetJcrName(s, path).Ok? && r.Err? ==> r.error == ItemExists
    ensures isNew && r.Ok? ==> r.value.1 == s.db.nextId
    ensures isNew && r.Ok? ==> var (s1, ns, local) := GetJcrName(s, path).value;
      r.value.0 == s1.(db := s.db.(nodes := s.db.nodes + [NewRow(s, path, parent, ns, local, id, nodeType, depth, doc).(id := s.db.nextId)],
                                    nextId := s.db.nextId + 1))
  {
    if isNew then
      var (s1, ns, local) :- GetJcrName(s, path);
      var ins := InsertNode(s1.db, NewRow(s, path, parent, ns, local, id, nodeType, depth, doc));
      if ins.Err? then Err(ItemExists)
      else Ok((s1.(db := ins.value.0), ins.value.1))
    else
      var nodeId := PathExists(s, path);
      if nodeId.None? then Err(RepositoryError)
      else Ok((s.(db := s.db.(nodes := UpdateProps(s.db.nodes, nodeId.value, doc))), nodeId.value))
  }

  /* ---------------------------------------------------------------------
     Lemmas
     --------------------------------------------------------------------- */

  /** A new node goes after all its siblings, wherever they live, and
      takes the namespace URI and local name of its last segment. */
  lemma InsertedRowPlacement(s: Session, id: string, path: string, parent: string, nodeType: string, depth: int, doc: Document)
    requires WriteRow(s, id, path, parent, nodeType, true, depth, doc).Ok?
    ensures var (s1, nodeId) := WriteRow(s, id, path, parent, nodeType, true, depth, doc).value;
      var row := s1.db.nodes[|s1.db.nodes| - 1];
      && |s1.db.nodes| == |s.db.nodes| + 1 && s1.db.nodes[..|s.db.nodes|] == s.db.nodes
      && row.id == nodeId && row.path == path && row.workspace == s.workspace && row.identifier == id
      && row.namespace == LoadNamespaces(s).nsCache[SplitJcrName(path).0]
      && row.localName == SplitJcrName(path).1
      && row.sortOrder.Some?
      && (forall x :: x in s.db.nodes && x.parent == parent && x.sortOrder.Some? ==> x.sortOrder.value < row.sortOrder.value)
  {
    var (s1, nodeId) := WriteRow(s, id, path, parent, nodeType, true, depth, doc).value;
    assert s1.db.nodes[..|s.db.nodes|] == s.db.nodes;
  }

  /** Updating the document changes nothing but the `props` of the row at
      the path. */
  lemma UpdateTouchesOnlyProps(s: Session, id: string, path: string, parent: string, nodeType: string, depth: int, doc: Document, i: nat)
    requires Wf(s.db) && i < |s.db.nodes| && WriteRow(s, id, path, parent, nodeType, false, depth, doc).Ok?
    ensures var nodes := WriteRow(s, id, path, parent, nodeType, false, depth, doc).value.0.db.nodes;
      nodes[i] == if s.db.nodes[i].path == path && s.db.nodes[i].workspace == s.workspace
                  then s.db.nodes[i].(props := doc) else s.db.nodes[i]
  {
    var nodeId := PathExists(s, path).value;
    var k :| RowAt(s.db.nodes, k, path, s.workspace) && s.db.nodes[k].id == nodeId;
    if s.db.nodes[i].id == nodeId && i != k {
      if i < k {} else {}
    }
    if s.db.nodes[i].path == path && s.db.nodes[i].workspace == s.workspace && i != k {
      if i < k {} else {}
    }
  }

  lemma UpdatePropsKeepsWf(db: Db, id: nat, doc: Document)
    requires Wf(db)
    ensures Wf(db.(nodes := UpdateProps(db.nodes, id, doc)))
  {
    var ns := UpdateProps(db.nodes, id, doc);
    forall e | e in db.edges ensures HasId(ns, e.sourceId) && HasId(ns, e.targetId) {
      var a :| 0 <= a < |db.nodes| && db.nodes[a].id == e.sourceId;
      var b :| 0 <= b < |db.nodes| && db.nodes[b].id == e.targetId;
      assert ns[a].id == e.sourceId && ns[b].id == e.targetId;
    }
  }

  /** The edges syncForeignKeys builds keep both foreign keys and the
      primary key of the edges table. */
  lemma SyncForeignKeysKeepsWf(s: Session, nodeId: nat, ps: seq<Property>)
    requires Wf(s.db) && HasId(s.db.nodes, nodeId) && SyncForeignKeys(s, nodeId, ps).Ok?
    ensures Wf(SyncForeignKeys(s, nodeId, ps).value)
  {
    var kept := set e | e in s.db.edges && e.sourceId != nodeId;
    LinkPropsKeepsEdgesWf(s, nodeId, ps, kept);
  }

  lemma {:induction false} LinkValuesKeepsEdgesWf(s: Session, nodeId: nat, p: Property, vs: seq<string>, es: set<Edge>)
    requires HasId(s.db.nodes, nodeId) && EdgeKeysUnique(es) && EdgesResolve(s.db.nodes, es)
    requires LinkValues(s, nodeId, p, vs, es).Ok?
    ensures EdgeKeysUnique(LinkValues(s, nodeId, p, vs, es).value)
    ensures EdgesResolve(s.db.nodes, LinkValues(s, nodeId, p, vs, es).value)
    decreases |vs|
  {
    if |vs| > 0 {
      var t := ResolveTarget(s, vs[0]).value;
      if t.None? {
        LinkValuesKeepsEdgesWf(s, nodeId, p, vs[1..], es);
      } else {
        var e := Edge(nodeId, p.name, t.value, p.ptype);
        var q := NodePathForIdentifier(s, vs[0]).value;
        var k :| RowAt(s.db.nodes, k, q, s.workspace) && s.db.nodes[k].id == t.value;
        assert HasId(s.db.nodes, t.value);
        LinkValuesKeepsEdgesWf(s, nodeId, p, vs[1..], es + {e});
      }
    }
  }

  lemma {:induction false} LinkPropsKeepsEdgesWf(s: Session, nodeId: nat, ps: seq<Property>, es: set<Edge>)
    requires HasId(s.db.nodes, nodeId) && EdgeKeysUnique(es) && EdgesResolve(s.db.nodes, es)
    requires LinkProps(s, nodeId, ps, es).Ok?
    ensures EdgeKeysUnique(LinkProps(s, nodeId, ps, es).value)
    ensures EdgesResolve(s.db.nodes, LinkProps(s, nodeId, ps, es).value)
    decreases |ps|
  {
    if |ps| > 0 {
      var es1 := es;
      if IsRefType(ps[0].ptype) {
        LinkValuesKeepsEdgesWf(s, nodeId, ps[0], Dedup(RefValues(ps[0])), es);
        es1 := LinkValues(s, nodeId, ps[0], Dedup(RefValues(ps[0])), es).value;
      }
      LinkPropsKeepsEdgesWf(s, nodeId, ps[1..], es1);
    }
  }

  /** A successful syncNode keeps every key and constraint of the schema. */
  lemma SyncNodeKeepsWf(s: Session, uuid: Option<string>, path: string, parent: string, nodeType: string,
                        isNew: bool, depth: int, ps: seq<Property>, data: Option<Encoded>, now: string)
    requires Wf(s.db)
    requires SyncNode(s, uuid, path, parent, nodeType, isNew, depth, ps, data, now).Ok?
    ensures Wf(SyncNode(s, uuid, path, parent, nodeType, isNew, depth, ps, data, now).value.0.db)
  {
    var enc := if data.Some? then data.value else EncodeAll(ps, now).value;
    var (id, s0) := if uuid.Some? then (uuid.value, s) else FreshUuid(s);
    var (s1, nodeId) := WriteRow(s0, id, path, parent, nodeType, isNew, depth, enc.doc).value;
    WriteRowKeepsWf(s0, id, path, parent, nodeType, isNew, depth, enc.doc);
    AfterWriteKeepsWf(s1, path, id, nodeId, enc.binaryData, ps);
    assert SyncNode(s, uuid, path, parent, nodeType, isNew, depth, ps, data, now) == AfterWrite(s1, path, id, nodeId, enc.binaryData, ps);
  }

  /** Rows are never removed or moved: every old row keeps its place and
      every column but its document, and new rows come after them. */
  predicate RowsKept(a: seq<NodeRow>, b: seq<NodeRow>)
  {
    |a| <= |b| && forall i :: 0 <= i < |a| ==> b[i] == a[i].(props := b[i].props)
  }

  /** `b` is `a` with rows appended. */
  predicate Appends(a: seq<NodeRow>, b: seq<NodeRow>)
  {
    |a| <= |b| && b[..|a|] == a
  }

  lemma AppendsTrans(a: seq<NodeRow>, b: seq<NodeRow>, c: seq<NodeRow>)
    requires Appends(a, b) && Appends(b, c)
    ensures Appends(a, c)
  {
    assert c[..|a|] == c[..|b|][..|a|];
  }

  lemma AppendsKeepRows(a: seq<NodeRow>, b: seq<NodeRow>)
    requires Appends(a, b)
    ensures RowsKept(a, b)
  {
    forall i | 0 <= i < |a| ensures b[i] == a[i].(props := b[i].props) {
      assert b[i] == b[..|a|][i];
    }
  }

  lemma RowsKeptTrans(a: seq<NodeRow>, b: seq<NodeRow>, c: seq<NodeRow>)
    requires RowsKept(a, b) && RowsKept(b, c)
    ensures RowsKept(a, c)
  {
    forall i | 0 <= i < |a| ensures c[i] == a[i].(props := c[i].props) {
      assert b[i] == a[i].(props := b[i].props);
      assert c[i] == b[i].(props := c[i].props);
    }
  }

  /** After a successful syncNode the path has a row in the workspace that
      holds the encoded document; a new node's row carries the identifier
      used and is appended after the old rows. No row is removed or moved,
      and only documents change. */
  lemma SyncNodeRow(s: Session, id: string, path: string, parent: string, nodeType: string,
                    isNew: bool, depth: int, ps: seq<Property>, now: string) returns (i: nat)
    requires Wf(s.db)
    requires SyncNode(s, Some(id), path, parent, nodeType, isNew, depth, ps, None, now).Ok?
    ensures var nodes := SyncNode(s, Some(id), path, parent, nodeType, isNew, depth, ps, None, now).value.0.db.nodes;
      && EncodeAll(ps, now).Ok?
      && i < |nodes| && nodes[i].path == path && nodes[i].workspace == s.workspace
      && nodes[i].props == EncodeAll(ps, now).value.doc
      && (isNew ==> nodes[i].identifier == id && Appends(s.db.nodes, nodes))
      && RowsKept(s.db.nodes, nodes)
  {
    var enc := EncodeAll(ps, now).value;
    var (s1, nodeId) := WriteRow(s, id, path, parent, nodeType, isNew, depth, enc.doc).value;
    i := WriteRowRow(s, id, path, parent, nodeType, isNew, depth, enc.doc);
    AfterWriteNodes(s1, path, id, nodeId, enc.binaryData, ps);
    assert SyncNode(s, Some(id), path, parent, nodeType, isNew, depth, ps, None, now)
        == AfterWrite(s1, path, id, nodeId, enc.binaryData, ps);
  }

  /** AfterWrite leaves the node rows alone. */
  lemma AfterWriteNodes(s1: Session, path: string, id: string, nodeId: nat,
                        binaryData: OMap<string, seq<string>>, ps: seq<Property>)
    requires AfterWrite(s1, path, id, nodeId, binaryData, ps).Ok?
    ensures AfterWrite(s1, path, id, nodeId, binaryData, ps).value.0.db.nodes == s1.db.nodes
  {
  }

  /** The row written by WriteRow: at the path in the workspace, holding
      the document. */
  lemma WriteRowRow(s: Session, id: string, path: string, parent: string, nodeType: string,
                    isNew: bool, depth: int, doc: Document) returns (i: nat)
    requires Wf(s.db) && WriteRow(s, id, path, parent, nodeType, isNew, depth, doc).Ok?
    ensures var nodes := WriteRow(s, id, path, parent, nodeType, isNew, depth, doc).value.0.db.nodes;
      && i < |nodes| && nodes[i].path == path && nodes[i].workspace == s.workspace
      && nodes[i].props == doc
      && (isNew ==> nodes[i].identifier == id && Appends(s.db.nodes, nodes))
      && RowsKept(s.db.nodes, nodes)
  {
    var nodes := WriteRow(s, id, path, parent, nodeType, isNew, depth, doc).value.0.db.nodes;
    if isNew {
      i := |s.db.nodes|;
      InsertedRowPlacement(s, id, path, parent, nodeType, depth, doc);
      assert nodes[i] == nodes[|nodes| - 1];
      forall j | 0 <= j < |s.db.nodes| ensures nodes[j] == s.db.nodes[j].(props := nodes[j].props) {
        assert nodes[j] == nodes[..|s.db.nodes|][j];
      }
    } else {
      var nodeId := PathExists(s, path).value;
      var k :| RowAt(s.db.nodes, k, path, s.workspace) && s.db.nodes[k].id == nodeId;
      i := k;
      UpdateTouchesOnlyProps(s, id, path, parent, nodeType, depth, doc, k);
    }
  }

  lemma AfterWriteKeepsWf(s1: Session, path: string, id: string, nodeId: nat,
                          binaryData: OMap<string, seq<string>>, ps: seq<Property>)
    requires Wf(s1.db) && HasId(s1.db.nodes, nodeId) && AfterWrite(s1, path, id, nodeId, binaryData, ps).Ok?
    ensures Wf(AfterWrite(s1, path, id, nodeId, binaryData, ps).value.0.db)
  {
    var s2 := s1.(identifiers := s1.identifiers[path := id],
                  db := s1.db.(binaries := SyncBinaryData(s1.db.binaries, nodeId, s1.workspace, binaryData)));
    SyncBinaryDataKeepsKeys(s1.db.binaries, nodeId, s1.workspace, binaryData);
    SyncForeignKeysKeepsWf(s2, nodeId, ps);
  }

  /** The insert or update of the row keeps every key and constraint, and
      the written node has a row. */
  lemma WriteRowKeepsWf(s: Session, id: string, path: string, parent: string, nodeType: string,
                        isNew: bool, depth: int, doc: Document)
    requires Wf(s.db) && WriteRow(s, id, path, parent, nodeType, isNew, depth, doc).Ok?
    ensures var (s1, nodeId) := WriteRow(s, id, path, parent, nodeType, isNew, depth, doc).value;
      Wf(s1.db) && HasId(s1.db.nodes, nodeId)
  {
    var (s1, nodeId) := WriteRow(s, id, path, parent, nodeType, isNew, depth, doc).value;
    if isNew {
      var (sj, ns, local) := GetJcrName(s, path).value;
      InsertNodeKeepsWf(sj.db, NewRow(s, path, parent, ns, local, id, nodeType, depth, doc));
      assert s1.db.nodes[|s1.db.nodes| - 1].id == nodeId;
    } else {
      UpdatePropsKeepsWf(s.db, nodeId, doc);
      var k :| RowAt(s.db.nodes, k, path, s.workspace) && s.db.nodes[k].id == nodeId;
      assert s1.db.nodes[k].id == nodeId;
    }
  }

  /** The identifier written for a path is what the cache then holds. */
  lemma SyncNodeCachesIdentifier(s: Session, u: string, path: string, parent: string, nodeType: string,
                                 isNew: bool, depth: int, ps: seq<Property>, data: Option<Encoded>, now: string)
    requires SyncNode(s, Some(u), path, parent, nodeType, isNew, depth, ps, data, now).Ok?
    ensures SyncNode(s, Some(u), path, parent, nodeType, isNew, depth, ps, data, now).value.0.identifiers[path] == u
  {
  }

  /** Saving a node that reuses a path of its workspace, or an identifier
      of any workspace, is an "item exists" error. */
  lemma InsertClashIsItemExists(s: Session, u: string, path: string, parent: string, nodeType: string,
                                depth: int, ps: seq<Property>, data: Encoded, now: string)
    requires GetJcrName(s, path).Ok?
    requires PathTaken(s.db.nodes, path, s.workspace) || IdentifierTaken(s.db.nodes, u)
    ensures SyncNode(s, Some(u), path, parent, nodeType, true, depth, ps, Some(data), now) == Err(ItemExists)
  {
  }
}
