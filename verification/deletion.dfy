/** Removing items: deleteNode drops a node and its subtree from the current
    workspace unless a hard reference points into it, letting the schema's
    cascading foreign keys drop the edges; deleteProperty drops one
    property element from a node's document. */
module Deletion {
  import opened Wrappers
  import opened Text
  import opened Paths
  import opened Codec
  import opened Schema
  import opened Sessions
  import opened Lookup
  import opened Store

  /* ---------------------------------------------------------------------
     deleteNode
     --------------------------------------------------------------------- */

  /** The rows a delete of `path` reaches: the row itself and every row
      whose path matches `path/%`, in the workspace `ws`. */
  predicate InScope(row: NodeRow, path: string, ws: string)
  {
    row.workspace == ws && (row.path == path || Like(row.path, path + "/%"))
  }

  /** A REFERENCE edge whose target row lies in the scope. */
  predicate Blocks(nodes: seq<NodeRow>, e: Edge, path: string, ws: string)
  {
    e.kind == Reference && exists i :: 0 <= i < |nodes| && nodes[i].id == e.targetId && InScope(nodes[i], path, ws)
  }

  /** The rows outside the scope, in their order. */
  function Keep(nodes: seq<NodeRow>, path: string, ws: string): (r: seq<NodeRow>)
    ensures forall x :: x in r <==> x in nodes && !InScope(x, path, ws)
    ensures |r| <= |nodes|
    decreases |nodes|
  {
    if |nodes| == 0 then []
    else
      var rest := Keep(nodes[1..], path, ws);
      assert forall x :: x in nodes <==> x == nodes[0] || x in nodes[1..] by {
        assert nodes == [nodes[0]] + nodes[1..];
      }
      if InScope(nodes[0], path, ws) then rest else [nodes[0]] + rest
  }

  /** ON DELETE CASCADE on both foreign keys: an edge goes with either of
      its rows. */
  function Cascade(es: set<Edge>, nodes: seq<NodeRow>): (r: set<Edge>)
    ensures forall e :: e in r <==> e in es && HasId(nodes, e.sourceId) && HasId(nodes, e.targetId)
  {
    set e | e in es && HasId(nodes, e.sourceId) && HasId(nodes, e.targetId)
  }

  /** deleteNode. The root cannot be deleted, the path must have a row, and
      no REFERENCE may point into the subtree; WEAKREFERENCE edges do not
      block and are dropped with their target. Binary rows have no foreign
      key and stay behind. */
  function DeleteNode(s: Session, path: string): (r: Result<Session>)
    ensures !s.loggedIn ==> r == Err(RepositoryError)
    ensures s.loggedIn && path == "/" ==> r == Err(ConstraintViolation)
    ensures s.loggedIn && path != "/" && PathExists(s, path).None? ==> r == Err(ItemNotFound)
    ensures s.loggedIn && path != "/" && PathExists(s, path).Some? ==>
      (r == Err(ReferentialIntegrity) <==> exists e :: e in s.db.edges && Blocks(s.db.nodes, e, path, s.workspace))
    ensures r.Ok? ==> r.value == s.(db := r.value.db)
    ensures r.Ok? ==> forall x :: x in r.value.db.nodes <==> x in s.db.nodes && !InScope(x, path, s.workspace)
    ensures r.Ok? ==> r.value.db.edges <= s.db.edges && r.value.db.binaries == s.db.binaries
  {
    if !s.loggedIn then Err(RepositoryError)
    else if path == "/" then Err(ConstraintViolation)
    else if PathExists(s, path).None? then Err(ItemNotFound)
    else if exists e :: e in s.db.edges && Blocks(s.db.nodes, e, path, s.workspace) then Err(ReferentialIntegrity)
    else
      var kept := Keep(s.db.nodes, path, s.workspace);
      Ok(s.(db := s.db.(nodes := kept, edges := Cascade(s.db.edges, kept))))
  }

  /* ---------------------------------------------------------------------
     deleteProperty
     --------------------------------------------------------------------- */

  /** The property name deleteProperty derives from the path: everything
      after the leading '/' below the root, otherwise the path with every
      occurrence of `nodePath/` taken out. */
  function PropertyNameOf(path: string, nodePath: string): string
  {
    if nodePath == "/" then (if |path| > 0 then path[1..] else "")
    else StrReplace(nodePath + "/", "", path)
  }

  /** The first element of the document with the name. */
  function FirstNamed(doc: Document, name: string): (r: Option<nat>)
    ensures r.Some? ==> r.value < |doc| && doc[r.value].name == name
    ensures r.Some? ==> forall j :: 0 <= j < r.value ==> doc[j].name != name
    ensures r.None? ==> forall j :: 0 <= j < |doc| ==> doc[j].name != name
    decreases |doc|
  {
    if |doc| == 0 then None
    else if doc[0].name == name then Some(0)
    else
      var k := FirstNamed(doc[1..], name);
      if k.None? then None else Some(k.value + 1)
  }

  /** The type test deleteProperty applies before dropping edges: the
      lower-case words, compared exactly. */
  predicate NamesReference(x: XmlProperty)
  {
    x.typeName == "reference" || x.typeName == "weakreference"
  }

  /** The edges left after deleting those of one property of one node. */
  function DropPropertyEdges(es: set<Edge>, nodeId: nat, name: string): (r: set<Edge>)
    ensures forall e :: e in r <==> e in es && !(e.sourceId == nodeId && e.propertyName == name)
  {
    set e | e in es && !(e.sourceId == nodeId && e.propertyName == name)
  }

  /** deleteProperty. The node is the parent path of the property path and
      must have a row; its first property element with the derived name is
      removed, and a missing one is "not found". */
  function DeleteProperty(s: Session, path: string): (r: Result<Session>)
    ensures !s.loggedIn ==> r == Err(RepositoryError)
    ensures s.loggedIn && PathExists(s, ParentPath(path)).None? ==> r == Err(ItemNotFound)
    ensures s.loggedIn && r.Err? ==> r.error == ItemNotFound
    ensures r.Ok? ==> r.value == s.(db := r.value.db)
    ensures r.Ok? ==> r.value.db.binaries == s.db.binaries && |r.value.db.nodes| == |s.db.nodes|
    ensures r.Ok? ==> r.value.db.edges <= s.db.edges
  {
    if !s.loggedIn then Err(RepositoryError)
    else
      var nodePath := ParentPath(path);
      var nodeId := PathExists(s, nodePath);
      if nodeId.None? then Err(ItemNotFound)
      else
        var name := PropertyNameOf(path, nodePath);
        var row := FindById(s.db.nodes, nodeId.value);
        var doc := if row.Some? then row.value.props else [];
        var i := FirstNamed(doc, name);
        if i.None? then Err(ItemNotFound)
        else
          var edges := if NamesReference(doc[i.value]) then DropPropertyEdges(s.db.edges, nodeId.value, name) else s.db.edges;
          var nodes := UpdateProps(s.db.nodes, nodeId.value, doc[..i.value] + doc[i.value + 1..]);
          Ok(s.(db := s.db.(nodes := nodes, edges := edges)))
  }

  /* ---------------------------------------------------------------------
     Lemmas
     --------------------------------------------------------------------- */

  /** Two rows of Keep are two rows of the input, in the same order. */
  lemma {:induction false} KeepPairs(nodes: seq<NodeRow>, path: string, ws: string, i: nat, j: nat) returns (a: nat, b: nat)
    requires i < j < |Keep(nodes, path, ws)|
    ensures a < b < |nodes| && nodes[a] == Keep(nodes, path, ws)[i] && nodes[b] == Keep(nodes, path, ws)[j]
    decreases |nodes|
  {
    var kept := Keep(nodes, path, ws);
    var rest := Keep(nodes[1..], path, ws);
    if InScope(nodes[0], path, ws) {
      assert kept == rest;
      a, b := KeepPairs(nodes[1..], path, ws, i, j);
      assert nodes[a + 1] == nodes[1..][a] && nodes[b + 1] == nodes[1..][b];
      a, b := a + 1, b + 1;
    } else {
      assert kept == [nodes[0]] + rest;
      if i == 0 {
        b := KeepAt(nodes[1..], path, ws, j - 1);
        assert nodes[b + 1] == nodes[1..][b];
        a, b := 0, b + 1;
      } else {
        a, b := KeepPairs(nodes[1..], path, ws, i - 1, j - 1);
        assert nodes[a + 1] == nodes[1..][a] && nodes[b + 1] == nodes[1..][b];
        a, b := a + 1, b + 1;
      }
    }
  }

  /** A row of Keep is a row of the input. */
  lemma KeepAt(nodes: seq<NodeRow>, path: string, ws: string, j: nat) returns (b: nat)
    requires j < |Keep(nodes, path, ws)|
    ensures b < |nodes| && nodes[b] == Keep(nodes, path, ws)[j]
  {
    var x := Keep(nodes, path, ws)[j];
    assert x in Keep(nodes, path, ws);
    b :| 0 <= b < |nodes| && nodes[b] == x;
  }

  /** Deleting a subtree keeps every key and constraint of the schema. */
  lemma DeleteNodeKeepsWf(s: Session, path: string)
    requires Wf(s.db) && DeleteNode(s, path).Ok?
    ensures Wf(DeleteNode(s, path).value.db)
  {
    var db := s.db;
    var kept := Keep(db.nodes, path, s.workspace);
    var db' := DeleteNode(s, path).value.db;
    assert db'.nodes == kept;
    forall i, j | 0 <= i < j < |kept|
      ensures !(kept[i].path == kept[j].path && kept[i].workspace == kept[j].workspace)
      ensures kept[i].identifier != kept[j].identifier
      ensures kept[i].id < kept[j].id
    {
      var a, b := KeepPairs(db.nodes, path, s.workspace, i, j);
    }
    forall i | 0 <= i < |kept| ensures 0 < kept[i].id < db.nextId {
      assert kept[i] in kept;
    }
  }

  /** The edges that survive are exactly those whose two rows survive. */
  lemma DeleteNodeCascades(s: Session, path: string, e: Edge)
    requires DeleteNode(s, path).Ok? && e in s.db.edges
    ensures var kept := DeleteNode(s, path).value.db.nodes;
      e in DeleteNode(s, path).value.db.edges <==> HasId(kept, e.sourceId) && HasId(kept, e.targetId)
  {
  }

  /** A weak reference into the subtree does not block the delete and is
      dropped with its target row. */
  lemma {:induction false} WeakReferenceIsDropped(s: Session, path: string, e: Edge, t: nat)
    requires Wf(s.db) && DeleteNode(s, path).Ok?
    requires e in s.db.edges && e.kind == WeakReference
    requires t < |s.db.nodes| && s.db.nodes[t].id == e.targetId && InScope(s.db.nodes[t], path, s.workspace)
    ensures e !in DeleteNode(s, path).value.db.edges
  {
    var kept := Keep(s.db.nodes, path, s.workspace);
    forall k | 0 <= k < |kept| ensures kept[k].id != e.targetId {
      assert kept[k] in s.db.nodes;
      var a :| 0 <= a < |s.db.nodes| && s.db.nodes[a] == kept[k];
      assert a != t;
    }
  }

  /** The scope of `/a` does not reach a sibling such as `/ab`: the
      pattern carries the separator. */
  lemma DeleteSparesPrefixSibling(path: string, rest: string, row: NodeRow, ws: string)
    requires NoWildcards(path) && |rest| > 0 && rest[0] != '/'
    requires row.path == path + rest
    ensures !InScope(row, path, ws)
  {
    assert path + "/%" == (path + "/") + "%";
    assert NoWildcards(path + "/");
    LikeLiteralPrefix(path + "/", row.path);
    assert !(path + "/" <= row.path) by {
      assert row.path[|path|] == rest[0];
      assert (path + "/")[|path|] == '/';
    }
  }

  /** With no wildcard in the path, the scope is the row and the paths
      starting with `path/`. */
  lemma ScopeIsSubtree(path: string, row: NodeRow, ws: string)
    requires NoWildcards(path)
    ensures InScope(row, path, ws) <==> row.workspace == ws && (row.path == path || path + "/" <= row.path)
  {
    assert path + "/%" == (path + "/") + "%";
    assert NoWildcards(path + "/");
    LikeLiteralPrefix(path + "/", row.path);
  }

  /** `_` in a node name is a LIKE wildcard: deleting `/a_b` also reaches
      the subtree of `/axb`. */
  lemma UnderscoreWidensScope(row: NodeRow, ws: string)
    requires row.path == "/axb/c" && row.workspace == ws
    ensures InScope(row, "/a_b", ws)
  {
    assert "/a_b" + "/%" == "/a_b/%";
    var p := "/a_b/%";
    var s := "/axb/c";
    assert s[1..] == "axb/c" && p[1..] == "a_b/%";
    assert s[2..] == "xb/c" && p[2..] == "_b/%";
    assert s[3..] == "b/c" && p[3..] == "b/%";
    assert s[4..] == "/c" && p[4..] == "/%";
    assert s[5..] == "c" && p[5..] == "%";
    LikeAnything("c");
  }

  /** Below the root, the property name is the last segment of the path. */
  lemma PropertyNameIsLastSegment(parent: string, name: string)
    requires '/' !in name && PhpTruthy(parent) && parent != "/"
    ensures ParentPath(parent + "/" + name) == parent
    ensures PropertyNameOf(parent + "/" + name, parent) == name
  {
    ChildPath(parent, name);
    var search := parent + "/";
    assert parent + "/" + name == search + name;
    assert !Occurs(search, name) by {
      forall i | 0 <= i <= |name| - |search| ensures !(search <= name[i..]) {
        assert name[i + |search| - 1] in name;
        assert search[|search| - 1] == '/';
      }
    }
    StrReplaceLeadingOccurrence(search, "", name);
  }

  /** Directly under the root the name is the path without its '/'. */
  lemma TopLevelPropertyName(name: string)
    requires '/' !in name
    ensures PropertyNameOf("/" + name, ParentPath("/" + name)) == name
  {
    TopLevelPath(name);
    assert ("/" + name)[1..] == name;
  }

  /** What a successful deleteProperty leaves: the node's document without
      its first element of that name, every other row untouched. */
  lemma DeletePropertyRemovesFirst(s: Session, path: string, k: nat)
    requires Wf(s.db) && DeleteProperty(s, path).Ok?
    requires RowAt(s.db.nodes, k, ParentPath(path), s.workspace)
    ensures var doc := s.db.nodes[k].props;
      var i := FirstNamed(doc, PropertyNameOf(path, ParentPath(path)));
      && i.Some?
      && DeleteProperty(s, path).value.db.nodes[k] == s.db.nodes[k].(props := doc[..i.value] + doc[i.value + 1..])
    ensures forall j :: 0 <= j < |s.db.nodes| && j != k ==> DeleteProperty(s, path).value.db.nodes[j] == s.db.nodes[j]
  {
    FindRowUnique(s.db.nodes, ParentPath(path), s.workspace, k);
    var id := s.db.nodes[k].id;
    assert PathExists(s, ParentPath(path)) == Some(id);
    assert FindById(s.db.nodes, id) == Some(s.db.nodes[k]) by {
      var row := FindById(s.db.nodes, id);
      var a :| 0 <= a < |s.db.nodes| && s.db.nodes[a] == row.value;
    }
    forall j | 0 <= j < |s.db.nodes| && j != k ensures s.db.nodes[j].id != id {
      if j < k { assert s.db.nodes[j].id < s.db.nodes[k].id; }
      if k < j { assert s.db.nodes[k].id < s.db.nodes[j].id; }
    }
  }

  /** No type name the encoder writes passes the lower-case test. */
  lemma TypeNamesFailReferenceTest(x: XmlProperty)
    requires TypeFromName(x.typeName).Some?
    ensures !NamesReference(x)
  {
    var t := TypeFromName(x.typeName).value;
    assert TypeName(t) == x.typeName;
  }

  /** The type names the encoder writes are capitalised, so deleting a
      stored reference property never reaches the edge delete: the edges
      stay behind. */
  lemma EncodedReferenceKeepsEdges(s: Session, path: string)
    requires DeleteProperty(s, path).Ok?
    requires forall j :: 0 <= j < |s.db.nodes| ==> forall x :: x in s.db.nodes[j].props ==> TypeFromName(x.typeName).Some?
    ensures DeleteProperty(s, path).value.db.edges == s.db.edges
  {
    var nodeId := PathExists(s, ParentPath(path)).value;
    var row := FindById(s.db.nodes, nodeId);
    var doc := if row.Some? then row.value.props else [];
    var i := FirstNamed(doc, PropertyNameOf(path, ParentPath(path))).value;
    assert row.Some?;
    assert row.value in s.db.nodes;
    var a :| 0 <= a < |s.db.nodes| && s.db.nodes[a] == row.value;
    assert doc[i] in s.db.nodes[a].props;
    TypeNamesFailReferenceTest(doc[i]);
  }

  /** A property element whose type attribute is literally "reference"
      does take its edges along. */
  lemma LowerCaseReferenceDropsEdges(s: Session, path: string, e: Edge, k: nat)
    requires Wf(s.db) && DeleteProperty(s, path).Ok?
    requires RowAt(s.db.nodes, k, ParentPath(path), s.workspace)
    requires var doc := s.db.nodes[k].props;
      NamesReference(doc[FirstNamed(doc, PropertyNameOf(path, ParentPath(path))).value])
    requires e in s.db.edges && e.sourceId == s.db.nodes[k].id && e.propertyName == PropertyNameOf(path, ParentPath(path))
    ensures e !in DeleteProperty(s, path).value.db.edges
  {
    DeletePropertyRemovesFirst(s, path, k);
    FindRowUnique(s.db.nodes, ParentPath(path), s.workspace, k);
    var id := s.db.nodes[k].id;
    assert FindById(s.db.nodes, id) == Some(s.db.nodes[k]) by {
      var row := FindById(s.db.nodes, id);
      var a :| 0 <= a < |s.db.nodes| && s.db.nodes[a] == row.value;
      if a < k { assert s.db.nodes[a].id < s.db.nodes[k].id; }
      if k < a { assert s.db.nodes[k].id < s.db.nodes[a].id; }
    }
  }
}
