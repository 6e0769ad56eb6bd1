/** Moving and copying subtrees. Both check the source, the destination
    and the destination's parent the same way. moveNode rewrites the path
    columns of the selected rows in one UPDATE; copyNode saves a new node
    for every row whose path starts like the source, then copies the
    source node's binary rows to it. */
module Relocation {
  import opened Wrappers
  import opened Text
  import opened Paths
  import opened OrderedMaps
  import opened Codec
  import opened Schema
  import opened Sessions
  import opened Lookup
  import opened References
  import opened Store

  /** The checks moveNode and copyNode share: the source must have a row
      (its id is returned), the destination must not, and the
      destination's parent must. */
  function CheckPaths(s: Session, src: string, dst: string): (r: Result<nat>)
    ensures PathExists(s, src).None? ==> r == Err(PathNotFound)
    ensures PathExists(s, src).Some? && PathExists(s, dst).Some? ==> r == Err(ItemExists)
    ensures PathExists(s, src).Some? && PathExists(s, dst).None? ==>
      r == if PathExists(s, ParentPath(dst)).None? then Err(PathNotFound) else Ok(PathExists(s, src).value)
  {
    var srcId := PathExists(s, src);
    if srcId.None? then Err(PathNotFound)
    else if PathExists(s, dst).Some? then Err(ItemExists)
    else if PathExists(s, ParentPath(dst)).None? then Err(PathNotFound)
    else Ok(srcId.value)
  }

  /* ---------------------------------------------------------------------
     moveNode
     --------------------------------------------------------------------- */

  /** The selection of the move, `path LIKE src/% OR path = src AND
      workspace_name = ws`: AND binds tighter, so descendants are taken
      from every workspace. */
  predicate MoveSelects(row: NodeRow, src: string, ws: string)
  {
    Like(row.path, src + "/%") || (row.path == src && row.workspace == ws)
  }

  /** MAX(sort_order) + 1 over the rows with the parent, in every
      workspace and before the update; NULL when no such row has an order. */
  function MovedSortOrder(nodes: seq<NodeRow>, parent: string): (r: Option<int>)
    ensures r.None? <==> forall x :: x in nodes && x.parent == parent ==> x.sortOrder.None?
    ensures r.Some? ==> forall x :: x in nodes && x.parent == parent && x.sortOrder.Some? ==> x.sortOrder.value < r.value
    ensures r.Some? ==> exists x :: x in nodes && x.parent == parent && x.sortOrder == Some(r.value - 1)
  {
    var m := MaxSortOrder(ChildRows(nodes, parent, None));
    ChildMaxNone(nodes, parent);
    ChildMaxBounds(nodes, parent);
    ChildMaxAttained(nodes, parent);
    if m.None? then None else Some(m.value + 1)
  }

  lemma {:induction false} ChildMaxNone(nodes: seq<NodeRow>, parent: string)
    ensures MaxSortOrder(ChildRows(nodes, parent, None)).None? <==>
      forall x :: x in nodes && x.parent == parent ==> x.sortOrder.None?
  {
    var rows := ChildRows(nodes, parent, None);
    var m := MaxSortOrder(rows);
    if m.None? {
      forall x | x in nodes && x.parent == parent ensures x.sortOrder.None? {
        assert x in rows;
        var k :| 0 <= k < |rows| && rows[k] == x;
      }
    } else {
      var k :| 0 <= k < |rows| && rows[k].sortOrder == m;
      assert rows[k] in rows;
    }
  }

  lemma {:induction false} ChildMaxBounds(nodes: seq<NodeRow>, parent: string)
    ensures var m := MaxSortOrder(ChildRows(nodes, parent, None));
      m.Some? ==> forall x :: x in nodes && x.parent == parent && x.sortOrder.Some? ==> x.sortOrder.value <= m.value
  {
    var rows := ChildRows(nodes, parent, None);
    var m := MaxSortOrder(rows);
    if m.Some? {
      forall x | x in nodes && x.parent == parent && x.sortOrder.Some? ensures x.sortOrder.value <= m.value {
        assert x in rows;
        var k :| 0 <= k < |rows| && rows[k] == x;
      }
    }
  }

  lemma {:induction false} ChildMaxAttained(nodes: seq<NodeRow>, parent: string)
    ensures var m := MaxSortOrder(ChildRows(nodes, parent, None));
      m.Some? ==> exists x :: x in nodes && x.parent == parent && x.sortOrder == m
  {
    var rows := ChildRows(nodes, parent, None);
    var m := MaxSortOrder(rows);
    if m.Some? {
      var k :| 0 <= k < |rows| && rows[k].sortOrder == m;
      assert rows[k] in rows;
    }
  }

  /** One selected row after the move: the path with every occurrence of
      the source replaced, dirname as parent, the '/' count as depth; the
      source row itself also gets basename as local name and a new sort
      order. */
  function MovedRow(nodes: seq<NodeRow>, row: NodeRow, src: string, dst: string): NodeRow
  {
    var path := StrReplace(src, dst, row.path);
    var moved := row.(path := path, parent := Dirname(path), depth := CountChar(path, '/'));
    if row.path == src then moved.(localName := Basename(path), sortOrder := MovedSortOrder(nodes, Dirname(path)))
    else moved
  }

  function MoveRows(nodes: seq<NodeRow>, src: string, dst: string, ws: string): (r: seq<NodeRow>)
    ensures |r| == |nodes|
    ensures forall i :: 0 <= i < |nodes| ==>
      r[i] == if MoveSelects(nodes[i], src, ws) then MovedRow(nodes, nodes[i], src, dst) else nodes[i]
  {
    seq(|nodes|, i requires 0 <= i < |nodes| =>
      if MoveSelects(nodes[i], src, ws) then MovedRow(nodes, nodes[i], src, dst) else nodes[i])
  }

  /** moveNode. An update that breaks the unique path index fails as a
      whole. Ids, identifiers, documents, types and namespaces stay, and so
      do the edges and binary rows; the identifier cache is not touched. */
  function MoveNode(s: Session, src: string, dst: string): (r: Result<Session>)
    ensures !s.loggedIn ==> r == Err(RepositoryError)
    ensures s.loggedIn && CheckPaths(s, src, dst).Err? ==> r == Err(CheckPaths(s, src, dst).error)
    ensures s.loggedIn && CheckPaths(s, src, dst).Ok? ==>
      (r.Err? <==> !NodeConstraintsHold(MoveRows(s.db.nodes, src, dst, s.workspace)))
    ensures r.Err? && s.loggedIn && CheckPaths(s, src, dst).Ok? ==> r.error == BackendError
  {
    if !s.loggedIn then Err(RepositoryError)
    else
      var checked := CheckPaths(s, src, dst);
      if checked.Err? then Err(checked.error)
      else
        var nodes := MoveRows(s.db.nodes, src, dst, s.workspace);
        if !NodeConstraintsHold(nodes) then Err(BackendError)
        else Ok(s.(db := s.db.(nodes := nodes)))
  }

  /* ---------------------------------------------------------------------
     copyNode
     --------------------------------------------------------------------- */

  /** The selection of the copy: `path LIKE src%` in the current workspace,
      which also takes siblings whose name extends the source's. */
  predicate CopySelects(row: NodeRow, src: string, ws: string)
  {
    row.workspace == ws && Like(row.path, src + "%")
  }

  /** The selected rows, in table order. */
  function CopySource(nodes: seq<NodeRow>, src: string, ws: string): (r: seq<NodeRow>)
    ensures forall x :: x in r <==> x in nodes && CopySelects(x, src, ws)
    decreases |nodes|
  {
    if |nodes| == 0 then []
    else
      var rest := CopySource(nodes[1..], src, ws);
      assert forall x :: x in nodes <==> x == nodes[0] || x in nodes[1..] by {
        assert nodes == [nodes[0]] + nodes[1..];
      }
      if CopySelects(nodes[0], src, ws) then [nodes[0]] + rest else rest
  }

  /** INSERT ... SELECT of the binary rows of node `fromId` as rows of node
      `toId` in workspace `ws`. */
  function CopiedBinaries(bs: set<BinaryRow>, fromId: nat, toId: nat, ws: string): set<BinaryRow>
  {
    set b | b in bs && b.nodeId == fromId :: BinaryCopy(b, toId, ws)
  }

  /** The insert violates the unique key of phpcr_binarydata: a copied row
      meets an existing row of the target, or two source rows collapse
      onto one key. */
  predicate BinaryCopyClashes(bs: set<BinaryRow>, fromId: nat, toId: nat, ws: string)
  {
    (exists a, b :: a in bs && b in bs && a.nodeId == fromId && b.nodeId == toId
                    && b.propertyName == a.propertyName && b.workspace == ws && b.idx == a.idx)
    || (exists a, b :: a in bs && b in bs && a.nodeId == fromId && b.nodeId == fromId && a != b
                       && a.propertyName == b.propertyName && a.idx == b.idx)
  }

  /** The new node of one copied row: path with the source replaced, the
      parent path, the row's type, the '/' count as depth, the stored
      document unchanged and no property objects, so no edges. */
  function CopyOne(s: Session, row: NodeRow, src: string, dst: string): Result<(Session, nat)>
  {
    var path := StrReplace(src, dst, row.path);
    SyncNode(s, None, path, ParentPath(path), row.nodeType, true, CountChar(path, '/'), [], Some(Encoded(row.props, [])), "")
  }

  /** One binary row of the source as a row of node `toId` in `ws`. */
  function BinaryCopy(b: BinaryRow, toId: nat, ws: string): BinaryRow
  {
    BinaryRow(toId, b.propertyName, ws, b.idx, b.data)
  }

  /** One iteration of copyNode: the new node, then the source node's
      binary rows under the new id. */
  function CopyStep(s: Session, row: NodeRow, src: string, dst: string, srcId: nat): (r: Result<Session>)
  {
    var one := CopyOne(s, row, src, dst);
    if one.Err? then Err(one.error)
    else
      var s1 := one.value.0;
      var newId := one.value.1;
      if BinaryCopyClashes(s1.db.binaries, srcId, newId, s1.workspace) then Err(BackendError)
      else Ok(s1.(db := s1.db.(binaries := s1.db.binaries + CopiedBinaries(s1.db.binaries, srcId, newId, s1.workspace))))
  }

  /** The loop of copyNode over the selected rows. Every new node receives
      the binary rows of the source node `srcId`, not those of its own
      original. */
  function CopyRows(s: Session, rows: seq<NodeRow>, src: string, dst: string, srcId: nat): (r: Result<Session>)
    decreases |rows|
  {
    if |rows| == 0 then Ok(s)
    else
      var next := CopyStep(s, rows[0], src, dst, srcId);
      if next.Err? then next
      else CopyRows(next.value, rows[1..], src, dst, srcId)
  }

  /** copyNode. A named source workspace must exist, but the rows are read
      from the current workspace. Any failure undoes the whole copy. */
  function CopyNode(s: Session, src: string, dst: string, srcWorkspace: Option<string>): (r: Result<Session>)
    ensures !s.loggedIn ==> r == Err(RepositoryError)
    ensures s.loggedIn && srcWorkspace.Some? && srcWorkspace.value !in s.db.workspaces ==> r == Err(NoSuchWorkspace)
    ensures s.loggedIn && (srcWorkspace.None? || srcWorkspace.value in s.db.workspaces) && CheckPaths(s, src, dst).Err? ==>
      r == Err(CheckPaths(s, src, dst).error)
  {
    if !s.loggedIn then Err(RepositoryError)
    else if srcWorkspace.Some? && srcWorkspace.value !in s.db.workspaces then Err(NoSuchWorkspace)
    else
      var checked := CheckPaths(s, src, dst);
      if checked.Err? then Err(checked.error)
      else CopyRows(s, CopySource(s.db.nodes, src, s.workspace), src, dst, checked.value)
  }

  /* ---------------------------------------------------------------------
     Lemmas: moveNode
     --------------------------------------------------------------------- */

  /** A successful move keeps every key and constraint of the schema. */
  lemma MoveKeepsWf(s: Session, src: string, dst: string)
    requires Wf(s.db) && MoveNode(s, src, dst).Ok?
    ensures Wf(MoveNode(s, src, dst).value.db)
  {
    var ns := MoveRows(s.db.nodes, src, dst, s.workspace);
    MoveNodeRows(s, src, dst);
    assert MoveNode(s, src, dst).value.db == s.db.(nodes := ns);
    assert NodeConstraintsHold(ns);
    MoveRowsIds(s.db.nodes, src, dst, s.workspace);
    SameIdsKeepWf(s.db, ns);
  }

  /** A successful move changes only the node table, and there only the
      path, parent, depth, local name and sort order of a row. */
  lemma MoveNodeKeeps(s: Session, src: string, dst: string)
    requires MoveNode(s, src, dst).Ok?
    ensures var t := MoveNode(s, src, dst).value;
      && t == s.(db := s.db.(nodes := t.db.nodes))
      && |t.db.nodes| == |s.db.nodes|
      && forall i :: 0 <= i < |s.db.nodes| ==>
        var (x, y) := (s.db.nodes[i], t.db.nodes[i]);
        y == x.(path := y.path, parent := y.parent, depth := y.depth, localName := y.localName, sortOrder := y.sortOrder)
  {
    MoveNodeRows(s, src, dst);
    MoveRowsKeep(s.db.nodes, src, dst, s.workspace);
  }

  lemma MoveRowsKeep(nodes: seq<NodeRow>, src: string, dst: string, ws: string)
    ensures var r := MoveRows(nodes, src, dst, ws);
      forall i :: 0 <= i < |nodes| ==>
        r[i] == nodes[i].(path := r[i].path, parent := r[i].parent, depth := r[i].depth, localName := r[i].localName, sortOrder := r[i].sortOrder)
  {
  }

  lemma MoveRowsIds(nodes: seq<NodeRow>, src: string, dst: string, ws: string)
    ensures var r := MoveRows(nodes, src, dst, ws);
      forall i :: 0 <= i < |nodes| ==> r[i].id == nodes[i].id
  {
  }

  /** The table after a successful move. */
  lemma MoveNodeRows(s: Session, src: string, dst: string)
    requires MoveNode(s, src, dst).Ok?
    ensures MoveNode(s, src, dst).value.db.nodes == MoveRows(s.db.nodes, src, dst, s.workspace)
  {
  }

  /** The row of a descendant `src/rest` after the move. */
  lemma MovedDescendantRow(nodes: seq<NodeRow>, x: NodeRow, src: string, dst: string, rest: string)
    requires |src| > 0 && x.path == src + "/" + rest && !Occurs(src, "/" + rest)
    ensures var y := MovedRow(nodes, x, src, dst);
      && y.path == dst + "/" + rest
      && y.parent == Dirname(dst + "/" + rest)
      && y.depth == CountChar(dst + "/" + rest, '/')
      && y.localName == x.localName
      && y.sortOrder == x.sortOrder
  {
    assert x.path == src + ("/" + rest);
    assert dst + ("/" + rest) == dst + "/" + rest;
    StrReplaceLeadingOccurrence(src, dst, "/" + rest);
    assert x.path != src by {
      assert |x.path| > |src|;
    }
  }

  /** `path LIKE src/%` holds for every path below `src`. */
  lemma DescendantSelected(x: NodeRow, src: string, rest: string, ws: string)
    requires x.path == src + "/" + rest
    ensures MoveSelects(x, src, ws)
  {
    LikePrefix(src + "/", rest);
    assert src + "/" + "%" == src + "/%";
  }

  /** A descendant `src/rest` of the current workspace lands at
      `dst/rest`, as long as the source does not occur again in `/rest`. */
  lemma MoveRelocatesDescendant(s: Session, src: string, dst: string, i: nat, rest: string)
    requires MoveNode(s, src, dst).Ok? && |src| > 0
    requires i < |s.db.nodes| && s.db.nodes[i].path == src + "/" + rest
    requires !Occurs(src, "/" + rest)
    ensures var y := MoveNode(s, src, dst).value.db.nodes[i];
      && y.path == dst + "/" + rest
      && y.parent == Dirname(dst + "/" + rest)
      && y.depth == CountChar(dst + "/" + rest, '/')
      && y.localName == s.db.nodes[i].localName
      && y.sortOrder == s.db.nodes[i].sortOrder
  {
    DescendantSelected(s.db.nodes[i], src, rest, s.workspace);
    MovedDescendantRow(s.db.nodes, s.db.nodes[i], src, dst, rest);
    MoveNodeRows(s, src, dst);
  }

  /** The source row lands at `dst`, takes basename as local name, and goes
      after every sibling under its new dirname, across workspaces. */
  lemma MoveRelocatesSource(s: Session, src: string, dst: string, i: nat)
    requires MoveNode(s, src, dst).Ok? && |src| > 0
    requires RowAt(s.db.nodes, i, src, s.workspace)
    ensures var y := MoveNode(s, src, dst).value.db.nodes[i];
      && y.path == dst
      && y.parent == Dirname(dst)
      && y.localName == Basename(dst)
      && y.sortOrder == MovedSortOrder(s.db.nodes, Dirname(dst))
  {
    var x := s.db.nodes[i];
    assert MoveSelects(x, src, s.workspace);
    MoveNodeRows(s, src, dst);
    assert MoveNode(s, src, dst).value.db.nodes[i] == MovedRow(s.db.nodes, x, src, dst);
    MovedSourceRow(s.db.nodes, x, src, dst);
  }

  /** The source row after the move. */
  lemma MovedSourceRow(nodes: seq<NodeRow>, x: NodeRow, src: string, dst: string)
    requires |src| > 0 && x.path == src
    ensures var y := MovedRow(nodes, x, src, dst);
      && y.path == dst
      && y.parent == Dirname(dst)
      && y.localName == Basename(dst)
      && y.sortOrder == MovedSortOrder(nodes, Dirname(dst))
  {
    assert src + "" == src;
    assert dst + "" == dst;
    assert !Occurs(src, "");
    StrReplaceLeadingOccurrence(src, dst, "");
  }

  /** The move reaches the subtree of the source path in other workspaces
      too. */
  lemma MoveReachesOtherWorkspaces(s: Session, src: string, dst: string, i: nat)
    requires MoveNode(s, src, dst).Ok?
    requires i < |s.db.nodes| && src + "/" <= s.db.nodes[i].path && s.db.nodes[i].workspace != s.workspace
    ensures MoveNode(s, src, dst).value.db.nodes[i].path == StrReplace(src, dst, s.db.nodes[i].path)
  {
    var x := s.db.nodes[i];
    var rest := x.path[|src| + 1..];
    PrefixSplit(src + "/", x.path);
    DescendantSelected(x, src, rest, s.workspace);
    MoveNodeRows(s, src, dst);
    assert MoveNode(s, src, dst).value.db.nodes[i] == MovedRow(s.db.nodes, x, src, dst);
    MovedRowPath(s.db.nodes, x, src, dst);
  }

  lemma PrefixSplit(p: string, t: string)
    requires p <= t
    ensures t == p + t[|p|..]
  {
  }

  lemma MovedRowPath(nodes: seq<NodeRow>, row: NodeRow, src: string, dst: string)
    ensures MovedRow(nodes, row, src, dst).path == StrReplace(src, dst, row.path)
  {
  }

  /** Every occurrence of the source is replaced, not only the leading one. */
  lemma MoveRewritesEveryOccurrence()
    ensures StrReplace("/a", "/b", "/a/x/a") == "/b/x/b"
  {
    var s := "/a/x/a";
    assert "/a" <= s;
    assert s[2..] == "/x/a";
    assert "/x/a"[1] == 'x';
    assert "/x/a"[1..] == "x/a";
    assert "x/a"[0] == 'x';
    assert "x/a"[1..] == "/a";
    assert "/a" <= "/a";
    assert "/a"[2..] == "";
  }

  /** The moved source row keeps its namespace column and stores the whole
      last segment, prefix included, as local name, while an insert splits
      it into namespace and local name. */
  lemma MovedLocalNameKeepsPrefix()
    ensures Basename("/x/jcr:y") == "jcr:y"
    ensures SplitJcrName("/x/jcr:y") == ("jcr", "y")
  {
    assert "/x/jcr:y" == "/x" + "/" + "jcr:y";
    DirnameOfChild("/x", "jcr:y");
    SplitJcrNamePrefixed("/x", "jcr", "y");
    assert "/x" + "/" + "jcr" + ":" + "y" == "/x/jcr:y";
  }

  /** On ordinary paths the parent column written by the move is the parent
      path the rest of the client uses. */
  lemma MovedParentIsParentPath(parent: string, name: string)
    requires '/' !in name && |name| > 0
    requires |parent| > 0 && parent[|parent| - 1] != '/' && parent != "0"
    ensures Dirname(parent + "/" + name) == ParentPath(parent + "/" + name)
  {
    DirnameAgreesWithParentPath(parent, name);
  }

  /* ---------------------------------------------------------------------
     Lemmas: copyNode
     --------------------------------------------------------------------- */

  /** The new node of one copied row. */
  predicate IsCopy(x: NodeRow, orig: NodeRow, src: string, dst: string, ws: string)
  {
    var path := StrReplace(src, dst, orig.path);
    && x.path == path && x.parent == ParentPath(path) && x.workspace == ws
    && x.nodeType == orig.nodeType && x.depth == CountChar(path, '/') && x.props == orig.props
  }

  /** syncNode for a copied row appends one row under the next id and
      leaves the binary rows alone. */
  lemma CopyOneAppends(s: Session, row: NodeRow, src: string, dst: string)
    requires CopyOne(s, row, src, dst).Ok?
    ensures var (s1, id) := CopyOne(s, row, src, dst).value;
      && id == s.db.nextId
      && s1.workspace == s.workspace && s1.loggedIn == s.loggedIn
      && |s1.db.nodes| == |s.db.nodes| + 1 && s1.db.nodes[..|s.db.nodes|] == s.db.nodes
      && s1.db.nodes[|s.db.nodes|].id == id
      && IsCopy(s1.db.nodes[|s.db.nodes|], row, src, dst, s.workspace)
      && s1.db.nextId == s.db.nextId + 1
      && s1.db.binaries == s.db.binaries
      && s1.db.workspaces == s.db.workspaces
  {
    var path := StrReplace(src, dst, row.path);
    var (u, s0) := FreshUuid(s);
    var w := WriteRow(s0, u, path, ParentPath(path), row.nodeType, true, CountChar(path, '/'), row.props);
    assert w.Ok?;
    var (sj, ns, local) := GetJcrName(s0, path).value;
    var nr := NewRow(s0, path, ParentPath(path), ns, local, u, row.nodeType, CountChar(path, '/'), row.props);
    assert w.value.0.db.nodes == s.db.nodes + [nr.(id := s.db.nextId)];
    assert SyncBinaryData(w.value.0.db.binaries, w.value.1, w.value.0.workspace, []) == w.value.0.db.binaries;
  }

  /** Under the schema's keys syncNode adds no edge for a copied row. */
  lemma CopyOneKeepsEdges(s: Session, row: NodeRow, src: string, dst: string)
    requires Wf(s.db) && CopyOne(s, row, src, dst).Ok?
    ensures CopyOne(s, row, src, dst).value.0.db.edges == s.db.edges
    ensures Wf(CopyOne(s, row, src, dst).value.0.db)
  {
    var path := StrReplace(src, dst, row.path);
    SyncNodeKeepsWf(s, None, path, ParentPath(path), row.nodeType, true, CountChar(path, '/'), [], Some(Encoded(row.props, [])), "");
    CopyOneAppends(s, row, src, dst);
    forall e | e in s.db.edges ensures e.sourceId != s.db.nextId {
      var a :| 0 <= a < |s.db.nodes| && s.db.nodes[a].id == e.sourceId;
    }
  }

  /** The copied binary rows keep the keys unique when nothing clashes. */
  lemma CopiedBinariesKeepKeys(bs: set<BinaryRow>, fromId: nat, toId: nat, ws: string)
    requires BinaryKeysUnique(bs) && !BinaryCopyClashes(bs, fromId, toId, ws)
    ensures BinaryKeysUnique(bs + CopiedBinaries(bs, fromId, toId, ws))
  {
    var cs := CopiedBinaries(bs, fromId, toId, ws);
    forall a, b | a in cs && b in cs && SameBinaryKey(a, b) ensures a == b {
      var a0 :| a0 in bs && a0.nodeId == fromId && a == BinaryCopy(a0, toId, ws);
      var b0 :| b0 in bs && b0.nodeId == fromId && b == BinaryCopy(b0, toId, ws);
    }
  }

  /** One iteration: one new row under the next id, and the source node's
      binary rows added under the new id. */
  lemma CopyStepShape(s: Session, row: NodeRow, src: string, dst: string, srcId: nat)
    requires CopyStep(s, row, src, dst, srcId).Ok?
    ensures var t := CopyStep(s, row, src, dst, srcId).value;
      && t.workspace == s.workspace && t.loggedIn == s.loggedIn && t.db.workspaces == s.db.workspaces
      && |t.db.nodes| == |s.db.nodes| + 1 && t.db.nodes[..|s.db.nodes|] == s.db.nodes
      && t.db.nodes[|s.db.nodes|].id == s.db.nextId
      && IsCopy(t.db.nodes[|s.db.nodes|], row, src, dst, s.workspace)
      && t.db.nextId == s.db.nextId + 1
      && s.db.binaries <= t.db.binaries
  {
    CopyOneAppends(s, row, src, dst);
  }

  /** One iteration copies the source node's binary row `b`. */
  lemma CopyStepCopiesBinary(s: Session, row: NodeRow, src: string, dst: string, srcId: nat, b: BinaryRow)
    requires CopyStep(s, row, src, dst, srcId).Ok?
    requires b in s.db.binaries && b.nodeId == srcId
    ensures BinaryCopy(b, s.db.nextId, s.workspace) in CopyStep(s, row, src, dst, srcId).value.db.binaries
  {
    CopyOneAppends(s, row, src, dst);
  }

  /** One iteration keeps the keys and the edges. */
  lemma CopyStepKeepsWf(s: Session, row: NodeRow, src: string, dst: string, srcId: nat)
    requires Wf(s.db) && CopyStep(s, row, src, dst, srcId).Ok?
    ensures Wf(CopyStep(s, row, src, dst, srcId).value.db)
    ensures CopyStep(s, row, src, dst, srcId).value.db.edges == s.db.edges
  {
    CopyOneKeepsEdges(s, row, src, dst);
    var s1 := CopyOne(s, row, src, dst).value.0;
    CopiedBinariesKeepKeys(s1.db.binaries, srcId, CopyOne(s, row, src, dst).value.1, s1.workspace);
  }

  /** The copy loop appends one row per selected row and only adds binary
      rows. */
  lemma {:induction false} CopyRowsShape(s: Session, rows: seq<NodeRow>, src: string, dst: string, srcId: nat)
    requires CopyRows(s, rows, src, dst, srcId).Ok?
    ensures var t := CopyRows(s, rows, src, dst, srcId).value;
      && t.workspace == s.workspace && t.loggedIn == s.loggedIn && t.db.workspaces == s.db.workspaces
      && |t.db.nodes| == |s.db.nodes| + |rows| && t.db.nodes[..|s.db.nodes|] == s.db.nodes
      && t.db.nextId == s.db.nextId + |rows|
      && s.db.binaries <= t.db.binaries
    decreases |rows|
  {
    if |rows| > 0 {
      var s1 := CopyStep(s, rows[0], src, dst, srcId).value;
      CopyStepShape(s, rows[0], src, dst, srcId);
      assert CopyRows(s, rows, src, dst, srcId) == CopyRows(s1, rows[1..], src, dst, srcId);
      CopyRowsShape(s1, rows[1..], src, dst, srcId);
      var t := CopyRows(s1, rows[1..], src, dst, srcId).value;
      PrefixCompose(t.db.nodes, s1.db.nodes, s.db.nodes);
    }
  }

  lemma PrefixCompose(a: seq<NodeRow>, b: seq<NodeRow>, c: seq<NodeRow>)
    requires |c| <= |b| <= |a| && a[..|b|] == b && b[..|c|] == c
    ensures a[..|c|] == c
  {
    assert a[..|c|] == a[..|b|][..|c|];
  }

  /** The copy loop keeps the keys and the edges. */
  lemma {:induction false} CopyRowsKeepsWf(s: Session, rows: seq<NodeRow>, src: string, dst: string, srcId: nat)
    requires Wf(s.db) && CopyRows(s, rows, src, dst, srcId).Ok?
    ensures Wf(CopyRows(s, rows, src, dst, srcId).value.db)
    ensures CopyRows(s, rows, src, dst, srcId).value.db.edges == s.db.edges
    decreases |rows|
  {
    if |rows| > 0 {
      CopyStepKeepsWf(s, rows[0], src, dst, srcId);
      CopyRowsKeepsWf(CopyStep(s, rows[0], src, dst, srcId).value, rows[1..], src, dst, srcId);
    }
  }

  /** Row `k` after `k` appends: the facts of one step and those of the
      rest of the loop compose. */
  lemma AppendsCompose(s: Session, s1: Session, t: Session, rows: seq<NodeRow>, src: string, dst: string, k: nat, k1: nat)
    requires 0 < |rows| && k < |rows|
    requires s1.workspace == s.workspace && s1.db.nextId == s.db.nextId + 1
    requires |s1.db.nodes| == |s.db.nodes| + 1
    requires s1.db.nodes[|s.db.nodes|].id == s.db.nextId
    requires IsCopy(s1.db.nodes[|s.db.nodes|], rows[0], src, dst, s.workspace)
    requires |t.db.nodes| == |s1.db.nodes| + |rows| - 1 && t.db.nodes[..|s1.db.nodes|] == s1.db.nodes
    requires k > 0 ==>
      && k1 == k - 1 && |s1.db.nodes| + k1 < |t.db.nodes|
      && t.db.nodes[|s1.db.nodes| + k1].id == s1.db.nextId + k1
      && IsCopy(t.db.nodes[|s1.db.nodes| + k1], rows[1..][k1], src, dst, s1.workspace)
    ensures |s.db.nodes| + k < |t.db.nodes|
    ensures t.db.nodes[|s.db.nodes| + k].id == s.db.nextId + k
    ensures IsCopy(t.db.nodes[|s.db.nodes| + k], rows[k], src, dst, s.workspace)
  {
    var n := |s.db.nodes|;
    if k == 0 {
      assert t.db.nodes[n] == t.db.nodes[..n + 1][n];
    } else {
      assert rows[1..][k - 1] == rows[k];
    }
  }

  /** The rows the copy loop appends: row `k` of the result `t` is the copy
      of the `k`-th selected row, under the `k`-th new id. */
  lemma {:induction false} CopyRowsAppends(s: Session, rows: seq<NodeRow>, src: string, dst: string, srcId: nat, k: nat, t: Session)
    requires CopyRows(s, rows, src, dst, srcId) == Ok(t) && k < |rows|
    ensures |s.db.nodes| + k < |t.db.nodes|
    ensures t.db.nodes[|s.db.nodes| + k].id == s.db.nextId + k
    ensures IsCopy(t.db.nodes[|s.db.nodes| + k], rows[k], src, dst, s.workspace)
    decreases |rows|
  {
    var s1 := CopyStep(s, rows[0], src, dst, srcId).value;
    var rs := rows[1..];
    CopyStepShape(s, rows[0], src, dst, srcId);
    CopyRowsShape(s1, rs, src, dst, srcId);
    var k1: nat := if k > 0 then k - 1 else 0;
    if k > 0 {
      CopyRowsAppends(s1, rs, src, dst, srcId, k1, t);
    }
    AppendsCompose(s, s1, t, rows, src, dst, k, k1);
  }

  /** The binary copies of one step and those of the rest of the loop
      compose. */
  lemma BinariesCompose(s: Session, s1: Session, t: Session, b: BinaryRow, k: nat, k1: nat)
    requires s1.workspace == s.workspace && s1.db.nextId == s.db.nextId + 1
    requires s1.db.binaries <= t.db.binaries
    requires k == 0 ==> BinaryCopy(b, s.db.nextId, s.workspace) in s1.db.binaries
    requires k > 0 ==> k1 == k - 1 && BinaryCopy(b, s1.db.nextId + k1, s1.workspace) in t.db.binaries
    ensures BinaryCopy(b, s.db.nextId + k, s.workspace) in t.db.binaries
  {
    if k > 0 {
      assert s1.db.nextId + k1 == s.db.nextId + k;
    }
  }

  /** Every node the copy loop creates receives the binary rows the source
      node had. */
  lemma {:induction false} CopyRowsBinaries(s: Session, rows: seq<NodeRow>, src: string, dst: string, srcId: nat, k: nat, b: BinaryRow, t: Session)
    requires CopyRows(s, rows, src, dst, srcId) == Ok(t) && k < |rows|
    requires b in s.db.binaries && b.nodeId == srcId
    ensures BinaryCopy(b, s.db.nextId + k, s.workspace) in t.db.binaries
    decreases |rows|
  {
    var s1 := CopyStep(s, rows[0], src, dst, srcId).value;
    var rs := rows[1..];
    CopyStepShape(s, rows[0], src, dst, srcId);
    CopyRowsShape(s1, rs, src, dst, srcId);
    var k1: nat := if k > 0 then k - 1 else 0;
    if k == 0 {
      CopyStepCopiesBinary(s, rows[0], src, dst, srcId, b);
    } else {
      CopyRowsBinaries(s1, rs, src, dst, srcId, k1, b, t);
    }
    BinariesCompose(s, s1, t, b, k, k1);
  }

  /** What a successful copy does to the table, for the selected rows. */
  lemma CopyNodeEffect(s: Session, src: string, dst: string, srcWorkspace: Option<string>)
    requires Wf(s.db) && CopyNode(s, src, dst, srcWorkspace).Ok?
    ensures var t := CopyNode(s, src, dst, srcWorkspace).value;
      var rows := CopySource(s.db.nodes, src, s.workspace);
      && Wf(t.db)
      && t.db.edges == s.db.edges
      && |t.db.nodes| == |s.db.nodes| + |rows| && t.db.nodes[..|s.db.nodes|] == s.db.nodes
      && forall k :: 0 <= k < |rows| ==> IsCopy(t.db.nodes[|s.db.nodes| + k], rows[k], src, dst, s.workspace)
  {
    var srcId := CheckPaths(s, src, dst).value;
    var rows := CopySource(s.db.nodes, src, s.workspace);
    CopyRowsShape(s, rows, src, dst, srcId);
    CopyRowsKeepsWf(s, rows, src, dst, srcId);
    forall k | 0 <= k < |rows|
      ensures IsCopy(CopyNode(s, src, dst, srcWorkspace).value.db.nodes[|s.db.nodes| + k], rows[k], src, dst, s.workspace)
    {
      CopyRowsAppends(s, rows, src, dst, srcId, k, CopyNode(s, src, dst, srcWorkspace).value);
    }
  }

  /** Every copied node, descendants included, receives the binary rows of
      the source node. */
  lemma CopiesGetSourceBinaries(s: Session, src: string, dst: string, k: nat, b: BinaryRow)
    requires Wf(s.db) && CopyNode(s, src, dst, None).Ok?
    requires k < |CopySource(s.db.nodes, src, s.workspace)|
    requires b in s.db.binaries && b.nodeId == PathExists(s, src).value
    ensures BinaryCopy(b, s.db.nextId + k, s.workspace) in CopyNode(s, src, dst, None).value.db.binaries
  {
    CopyRowsBinaries(s, CopySource(s.db.nodes, src, s.workspace), src, dst, CheckPaths(s, src, dst).value, k, b,
                     CopyNode(s, src, dst, None).value);
  }

  /** The source workspace argument only has to exist. */
  lemma CopyIgnoresSourceWorkspace(s: Session, src: string, dst: string, w: string)
    requires w in s.db.workspaces
    ensures CopyNode(s, src, dst, Some(w)) == CopyNode(s, src, dst, None)
  {
  }

  /** `src%` also selects a sibling whose name extends the source's. */
  lemma CopySelectsPrefixSibling(src: string, rest: string, row: NodeRow, ws: string)
    requires row.path == src + rest && row.workspace == ws
    ensures CopySelects(row, src, ws)
  {
    LikePrefix(src, rest);
  }
}
