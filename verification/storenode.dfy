/** storeNode and storeProperty: validate a node against its responsible
    node types, choose its identifier, write its row and document, and
    store its new children in turn. */
module StoreNodes {
  import opened Wrappers
  import opened Paths
  import opened Codec
  import opened Schema
  import opened Sessions
  import opened Store
  import opened Validation

  /** `$properties[name]`: the node's property of that name. */
  function FindProperty(ps: seq<Property>, name: string): (r: Option<Property>)
    ensures r.Some? ==> r.value in ps && r.value.name == name
    ensures r.None? <==> forall i :: 0 <= i < |ps| ==> ps[i].name != name
    decreases |ps|
  {
    if |ps| == 0 then None
    else if ps[0].name == name then Some(ps[0])
    else
      assert forall i :: 1 <= i < |ps| ==> ps[i] == ps[1..][i - 1];
      FindProperty(ps[1..], name)
  }

  /** getValue() of a single-valued property, as the text the database is
      given. */
  function PropertyText(p: Property): string
  {
    if |p.values| > 0 then ScalarText(p.values[0]) else ""
  }

  /** The identifier of the node at `path`: the one cached for the path,
      else its jcr:uuid property, else a freshly generated one (even for a
      node that is not referenceable). */
  function ChooseIdentifier(s: Session, path: string, ps: seq<Property>): (r: (string, Session))
    ensures path in s.identifiers || FindProperty(ps, "jcr:uuid").Some? ==> r.1 == s
    ensures path !in s.identifiers && FindProperty(ps, "jcr:uuid").None? ==> r == FreshUuid(s)
  {
    if path in s.identifiers then (s.identifiers[path], s)
    else
      var uuid := FindProperty(ps, "jcr:uuid");
      if uuid.Some? then (PropertyText(uuid.value), s)
      else FreshUuid(s)
  }

  /** The node type written to the row: jcr:primaryType, else
      nt:unstructured. */
  function NodeTypeOf(ps: seq<Property>): string
  {
    var t := FindProperty(ps, "jcr:primaryType");
    if t.Some? then PropertyText(t.value) else "nt:unstructured"
  }

  /** Every path cached before is still cached. */
  predicate KeepsCache(s: Session, t: Session)
  {
    forall p :: p in s.identifiers ==> p in t.identifiers
  }

  /** Every new child of `parent` from index `i` on has its path cached. */
  predicate NewChildrenCached(parent: Node, i: nat, t: Session)
  {
    forall k :: i <= k < |parent.children| && parent.children[k].isNew ==> parent.children[k].path in t.identifiers
  }

  /** storeNode. `now` is the current time, used for auto-created dates and
      dates that are not date objects. With `saveChildren`, every new child
      is stored after the node, recursively; a child that is not new is a
      node moved here and is left alone. The store as a whole is not one
      transaction: each node's write commits on its own, so a failure
      comes back with the session as far as the store got, the node and
      the children stored before the failure included. */
  function StoreNode(s: Session, node: Node, saveChildren: bool, now: string): (r: (Session, Outcome))
    ensures !s.loggedIn ==> r == (s, Fail(RepositoryError))
    ensures r.0.loggedIn == s.loggedIn && r.0.workspace == s.workspace
    ensures KeepsCache(s, r.0)
    ensures r.1.Pass? ==> node.path in r.0.identifiers
    ensures r.1.Pass? && saveChildren ==> NewChildrenCached(node, 0, r.0)
    decreases node, |node.children| + 1
  {
    if !s.loggedIn then (s, Fail(RepositoryError))
    else
      var w := WriteNode(s, node, now);
      if w.Err? then (s, Fail(w.error))
      else if !saveChildren then (w.value, Pass)
      else StoreChildren(w.value, node, 0, now)
  }

  /** storeNode without the children: validate, choose the identifier,
      write the row. A failure here writes nothing. */
  function WriteNode(s: Session, node: Node, now: string): (r: Result<Session>)
    ensures r.Ok? ==> r.value.loggedIn == s.loggedIn && r.value.workspace == s.workspace
    ensures r.Ok? ==> KeepsCache(s, r.value) && node.path in r.value.identifiers
  {
    var v :- ValidateAll(s, node, ResponsibleTypes(node), now);
    ValidationFrame(s, node, ResponsibleTypes(node), now);
    ValidateAllMeetsTypes(s, node, ResponsibleTypes(node), now);
    var (s1, n1) := v;
    var (id, s2) := ChooseIdentifier(s1, n1.path, n1.props);
    var synced :- SyncNode(s2, Some(id), n1.path, ParentPath(n1.path), NodeTypeOf(n1.props),
                           n1.isNew, n1.depth, n1.props, None, now);
    Ok(synced.0)
  }

  /** The loop over the children of `parent` from index `i` on; the first
      failing child ends it. */
  function StoreChildren(s: Session, parent: Node, i: nat, now: string): (r: (Session, Outcome))
    requires s.loggedIn
    ensures r.0.loggedIn && r.0.workspace == s.workspace
    ensures KeepsCache(s, r.0)
    ensures r.1.Pass? ==> NewChildrenCached(parent, i, r.0)
    decreases parent, |parent.children| - i
  {
    if i >= |parent.children| then (s, Pass)
    else
      var child := parent.children[i];
      if child.isNew then
        var stored := StoreNode(s, child, true, now);
        if stored.1.Fail? then stored
        else StoreChildren(stored.0, parent, i + 1, now)
      else StoreChildren(s, parent, i + 1, now)
  }

  /** storeProperty: the property's node is stored without its children. */
  function StoreProperty(s: Session, parent: Node, now: string): (r: (Session, Outcome))
    ensures !s.loggedIn ==> r == (s, Fail(RepositoryError))
    ensures s.loggedIn ==> r == StoreNode(s, parent, false, now)
  {
    if !s.loggedIn then (s, Fail(RepositoryError)) else StoreNode(s, parent, false, now)
  }

  /* ---------------------------------------------------------------------
     Lemmas
     --------------------------------------------------------------------- */

  /** The session after validation differs only in the identifier counter
      and the namespace cache. */
  lemma {:induction false} ValidationFrame(s: Session, node: Node, types: seq<NodeType>, now: string)
    requires ValidateAll(s, node, types, now).Ok?
    ensures var s1 := ValidateAll(s, node, types, now).value.0;
      s1 == s.(uuidSeed := s1.uuidSeed, nsCache := s1.nsCache)
    decreases |types|
  {
    if |types| > 0 {
      var v := ValidateNode(s, node, types[0], now).value;
      ValidateNodeFrame(s, node, types[0], now);
      ValidationFrame(v.0, v.1, types[1..], now);
    }
  }

  lemma {:induction false} ValidateNodeFrame(s: Session, node: Node, def: NodeType, now: string)
    requires ValidateNode(s, node, def, now).Ok?
    ensures var s1 := ValidateNode(s, node, def, now).value.0;
      s1 == s.(uuidSeed := s1.uuidSeed, nsCache := s1.nsCache)
  {
    var added := AddProperties(s, node, def.propDefs, now).value;
    var s2 := CheckProperties(added.0, added.1.props).value;
    assert s2 == added.0 || s2 == LoadNamespaces(added.0);
  }

  /** The identifier a stored node ends up with in the path cache: the
      cached one wins, then the jcr:uuid property (an auto-created one
      included), then a fresh one. */
  lemma {:induction false} StoreNodeIdentifier(s: Session, node: Node, now: string)
    requires StoreNode(s, node, false, now).1.Pass?
    ensures var (s1, n1) := ValidateAll(s, node, ResponsibleTypes(node), now).value;
      var uuid := FindProperty(n1.props, "jcr:uuid");
      var ids := StoreNode(s, node, false, now).0.identifiers;
      && node.path in ids
      && (node.path in s.identifiers ==> ids[node.path] == s.identifiers[node.path])
      && (node.path !in s.identifiers && uuid.Some? ==> ids[node.path] == PropertyText(uuid.value))
      && (node.path !in s.identifiers && uuid.None? ==> ids[node.path] == FreshUuid(s1).0)
  {
    var (s1, n1) := ValidateAll(s, node, ResponsibleTypes(node), now).value;
    ValidationFrame(s, node, ResponsibleTypes(node), now);
    ValidateAllMeetsTypes(s, node, ResponsibleTypes(node), now);
    assert n1.path == node.path;
  }

  /** The row a successful WriteNode leaves: at the node's path in the
      workspace, holding the encoding of the validated properties; a new
      node's row carries the chosen identifier and is appended after the
      old rows. No row is removed or moved, and the schema's constraints
      still hold. */
  lemma WriteNodeRow(s: Session, node: Node, now: string) returns (i: nat)
    requires Wf(s.db) && WriteNode(s, node, now).Ok?
    ensures var (s1, n1) := ValidateAll(s, node, ResponsibleTypes(node), now).value;
      var nodes := WriteNode(s, node, now).value.db.nodes;
      && EncodeAll(n1.props, now).Ok?
      && i < |nodes| && nodes[i].path == node.path && nodes[i].workspace == s.workspace
      && nodes[i].props == EncodeAll(n1.props, now).value.doc
      && (node.isNew ==> nodes[i].identifier == ChooseIdentifier(s1, node.path, n1.props).0 && Appends(s.db.nodes, nodes))
      && RowsKept(s.db.nodes, nodes)
      && Wf(WriteNode(s, node, now).value.db)
  {
    var (s1, n1) := ValidateAll(s, node, ResponsibleTypes(node), now).value;
    ValidationFrame(s, node, ResponsibleTypes(node), now);
    ValidateAllMeetsTypes(s, node, ResponsibleTypes(node), now);
    var (id, s2) := ChooseIdentifier(s1, n1.path, n1.props);
    var parent, nodeType := ParentPath(n1.path), NodeTypeOf(n1.props);
    assert s2.db == s.db && s2.workspace == s.workspace;
    i := SyncNodeRow(s2, id, n1.path, parent, nodeType, n1.isNew, n1.depth, n1.props, now);
    SyncNodeKeepsWf(s2, Some(id), n1.path, parent, nodeType, n1.isNew, n1.depth, n1.props, None, now);
    assert WriteNode(s, node, now).value
        == SyncNode(s2, Some(id), n1.path, parent, nodeType, n1.isNew, n1.depth, n1.props, None, now).value.0;
  }

  /** Storing keeps the schema's constraints and never removes or moves a
      row, whether it passes or fails; storing a new node only appends
      rows. */
  lemma {:induction false} StoreNodeKeepsWf(s: Session, node: Node, saveChildren: bool, now: string)
    requires Wf(s.db)
    ensures var t := StoreNode(s, node, saveChildren, now).0;
      && Wf(t.db) && RowsKept(s.db.nodes, t.db.nodes)
      && (node.isNew ==> Appends(s.db.nodes, t.db.nodes))
    decreases node, |node.children| + 1
  {
    if s.loggedIn && WriteNode(s, node, now).Ok? {
      var w := WriteNode(s, node, now).value;
      var _ := WriteNodeRow(s, node, now);
      if saveChildren {
        StoreChildrenKeepWf(w, node, 0, now);
        var t := StoreChildren(w, node, 0, now).0;
        AppendsKeepRows(w.db.nodes, t.db.nodes);
        RowsKeptTrans(s.db.nodes, w.db.nodes, t.db.nodes);
        if node.isNew {
          AppendsTrans(s.db.nodes, w.db.nodes, t.db.nodes);
        }
      }
    }
  }

  /** The children's loop keeps the constraints and only appends rows, up
      to and including a failing child's work. */
  lemma {:induction false} StoreChildrenKeepWf(s: Session, parent: Node, i: nat, now: string)
    requires s.loggedIn && Wf(s.db)
    ensures var t := StoreChildren(s, parent, i, now).0;
      Wf(t.db) && Appends(s.db.nodes, t.db.nodes)
    decreases parent, |parent.children| - i
  {
    if i < |parent.children| {
      var child := parent.children[i];
      var next, more := ChildrenStep(s, parent, i, now);
      if child.isNew {
        StoreNodeKeepsWf(s, child, true, now);
      } else {
        assert next.db.nodes[..|s.db.nodes|] == s.db.nodes;
      }
      if more {
        StoreChildrenKeepWf(next, parent, i + 1, now);
        AppendsTrans(s.db.nodes, next.db.nodes, StoreChildren(next, parent, i + 1, now).0.db.nodes);
      }
    } else {
      assert s.db.nodes[..|s.db.nodes|] == s.db.nodes;
    }
  }

  /** One turn of the children's loop: the session after child `i`, and
      whether the loop goes on from there. */
  lemma ChildrenStep(s: Session, parent: Node, i: nat, now: string) returns (next: Session, more: bool)
    requires s.loggedIn && i < |parent.children|
    ensures next == if parent.children[i].isNew then StoreNode(s, parent.children[i], true, now).0 else s
    ensures more ==> next.loggedIn && StoreChildren(s, parent, i, now) == StoreChildren(next, parent, i + 1, now)
    ensures !more ==> StoreChildren(s, parent, i, now).0 == next
  {
    var child := parent.children[i];
    if child.isNew {
      var stored := StoreNode(s, child, true, now);
      next, more := stored.0, stored.1.Pass?;
    } else {
      next, more := s, true;
    }
  }

  /** Once the node itself is written its row stays, whatever its children
      do: at the node's path in the workspace, holding the encoding of the
      validated properties, with the chosen identifier for a new node. A
      failing child does not undo it. */
  lemma StoreNodeWritesRow(s: Session, node: Node, saveChildren: bool, now: string) returns (i: nat)
    requires Wf(s.db) && s.loggedIn && WriteNode(s, node, now).Ok?
    ensures var (s1, n1) := ValidateAll(s, node, ResponsibleTypes(node), now).value;
      var nodes := StoreNode(s, node, saveChildren, now).0.db.nodes;
      && EncodeAll(n1.props, now).Ok?
      && i < |nodes| && nodes[i].path == node.path && nodes[i].workspace == s.workspace
      && nodes[i].props == EncodeAll(n1.props, now).value.doc
      && (node.isNew ==> nodes[i].identifier == ChooseIdentifier(s1, node.path, n1.props).0)
  {
    i := WriteNodeRow(s, node, now);
    if saveChildren {
      var w := WriteNode(s, node, now).value;
      StoreChildrenKeepWf(w, node, 0, now);
      var nodes := StoreChildren(w, node, 0, now).0.db.nodes;
      assert nodes[i] == nodes[..|w.db.nodes|][i];
    }
  }

  /** Children that are not new (nodes moved under this one) are never
      written: with no new child, storing with children is storing the
      node alone. */
  lemma {:induction false} OldChildrenNotStored(s: Session, node: Node, now: string)
    requires forall i :: 0 <= i < |node.children| ==> !node.children[i].isNew
    ensures StoreNode(s, node, true, now) == StoreNode(s, node, false, now)
  {
    if s.loggedIn && WriteNode(s, node, now).Ok? {
      SkipOldChildren(WriteNode(s, node, now).value, node, 0, now);
    }
  }

  lemma {:induction false} SkipOldChildren(s: Session, parent: Node, i: nat, now: string)
    requires s.loggedIn
    requires forall k :: 0 <= k < |parent.children| ==> !parent.children[k].isNew
    ensures StoreChildren(s, parent, i, now) == (s, Pass)
    decreases |parent.children| - i
  {
    if i < |parent.children| {
      SkipOldChildren(s, parent, i + 1, now);
    }
  }

  /** A failing new child ends the loop: its error comes back together
      with the session it reached, so the parent and the siblings stored
      before it stay written. */
  lemma {:induction false} FailingChildFailsStore(s: Session, parent: Node, i: nat, now: string)
    requires s.loggedIn && i < |parent.children| && parent.children[i].isNew
    requires StoreNode(s, parent.children[i], true, now).1.Fail?
    ensures StoreChildren(s, parent, i, now) == StoreNode(s, parent.children[i], true, now)
  {
  }

  /** Validation runs before anything is written: a node that fails its
      primary type's validation leaves the session as it was and reports
      that error. */
  lemma {:induction false} InvalidNodeNotStored(s: Session, node: Node, saveChildren: bool, now: string)
    requires s.loggedIn && ValidateNode(s, node, node.primaryType, now).Err?
    ensures StoreNode(s, node, saveChildren, now) == (s, Fail(ValidateNode(s, node, node.primaryType, now).error))
  {
    PrimaryTypeFirst(s, node, now);
  }
}
