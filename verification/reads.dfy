/** Reading nodes: the data object getNode and getNodes hand out for a row.
    It holds the primary type, one empty entry per child in sort order, the
    decoded properties, and the identifier when some mixin of the node
    makes it referenceable. */
module NodeReads {
  import opened Wrappers
  import opened Text
  import opened Paths
  import opened OrderedMaps
  import opened Codec
  import opened Schema
  import opened Sessions
  import opened Lookup

  /** A member of the node data object: a plain string (the primary type,
      the identifier), an empty object standing for a child, or a decoded
      property field. */
  datatype Field = FText(s: string) | FChild | FEntry(e: Entry)

  type NodeData = OMap<string, Field>

  function Wrap(f: Fields): (r: NodeData)
    ensures Keys(r) == Keys(f)
    ensures forall k :: Get(r, k) == if Get(f, k).Some? then Some(FEntry(Get(f, k).value)) else None
  {
    if |f| == 0 then []
    else
      var rest := Wrap(f[1..]);
      assert ([(f[0].0, FEntry(f[0].1))] + rest)[1..] == rest;
      [(f[0].0, FEntry(f[0].1))] + rest
  }

  /** A decoded field if there is one, the fallback otherwise. */
  function Over(e: Option<Entry>, fallback: Option<Field>): Option<Field>
  {
    if e.Some? then Some(FEntry(e.value)) else fallback
  }

  /** The children loop: an empty object under each child name. */
  function PutChildren(data: NodeData, names: seq<string>): NodeData
    decreases |names|
  {
    if |names| == 0 then data
    else PutChildren(Put(data, names[0], FChild), names[1..])
  }

  function ChildNames(children: seq<NodeRow>): (r: seq<string>)
    ensures |r| == |children|
    ensures forall i :: 0 <= i < |children| ==> r[i] == LastSegment(children[i].path)
  {
    if |children| == 0 then [] else [LastSegment(children[0].path)] + ChildNames(children[1..])
  }

  /** The decoding loop of getNodeData, a second copy of the decoder that
      assigns each element's fields straight into the data object. */
  function PutFields(data: NodeData, doc: Document): Result<NodeData>
    decreases |doc|
  {
    if |doc| == 0 then Ok(data)
    else
      var d :- PutFields(data, doc[..|doc| - 1]);
      var f :- DecodeProperty(doc[|doc| - 1], None);
      Ok(PutAll(d, Wrap(f)))
  }

  /** The string cast of a decoded value. */
  function DecodedText(d: Decoded): string
  {
    match d
    case Str(s) => s
    case Bool(b) => if b then "1" else ""
    case Num(n) => IntToString(n)
    case Real(t) => t
  }

  function Texts(vs: seq<Decoded>): (r: seq<string>)
    ensures |r| == |vs|
    ensures forall i :: 0 <= i < |vs| ==> r[i] == DecodedText(vs[i])
  {
    if |vs| == 0 then [] else [DecodedText(vs[0])] + Texts(vs[1..])
  }

  /** The mixin names read from the jcr:mixinTypes member: absent or null
      gives none, a scalar one, a list its values, an empty object none.
      Type tags only sit under ':'-keys, so they never appear here. */
  function MixinNames(f: Option<Field>): seq<string>
  {
    if f.None? then []
    else match f.value
      case FText(s) => [s]
      case FChild => []
      case FEntry(e) =>
        match e
        case Scalar(v) => [DecodedText(v)]
        case List(vs) => Texts(vs)
        case Tag(_) => []
        case Null => []
  }

  /** The mixins before index `i` are all known and not referenceable, so
      the mixin loop reaches index `i`. */
  predicate LoopReaches(names: seq<string>, i: nat, types: map<string, bool>)
  {
    i <= |names| && forall j :: 0 <= j < i ==> names[j] in types && !types[names[j]]
  }

  /** The mixin loop of getNodeData. `types` is the node type manager: the
      type names it knows, each with whether it is mix:referenceable or
      inherits from it. The first referenceable mixin ends the loop with
      true; a mixin the manager does not know, met before that, is an
      error. */
  function MixinsReferenceable(names: seq<string>, types: map<string, bool>): (r: Result<bool>)
    ensures r == Ok(true) <==> exists i :: 0 <= i < |names| && LoopReaches(names, i, types) && names[i] in types && types[names[i]]
    ensures r.Err? <==> exists i :: 0 <= i < |names| && LoopReaches(names, i, types) && names[i] !in types
    ensures r.Err? ==> r.error == NoSuchNodeType
    decreases |names|
  {
    if |names| == 0 then Ok(false)
    else if names[0] !in types then Err(NoSuchNodeType)
    else if types[names[0]] then Ok(true)
    else
      var rest := MixinsReferenceable(names[1..], types);
      LoopReachesShift(names, types);
      rest
  }

  /** Past a known, non-referenceable first mixin, the loop reaches index
      `i + 1` of the names exactly when it reaches index `i` of the rest. */
  lemma LoopReachesShift(names: seq<string>, types: map<string, bool>)
    requires |names| > 0 && names[0] in types && !types[names[0]]
    ensures forall i :: 0 <= i < |names| - 1 ==> (LoopReaches(names[1..], i, types) <==> LoopReaches(names, i + 1, types))
    ensures forall i :: 0 < i <= |names| ==> (LoopReaches(names, i, types) <==> LoopReaches(names[1..], i - 1, types))
  {
    forall i | 0 <= i < |names| - 1 ensures LoopReaches(names[1..], i, types) <==> LoopReaches(names, i + 1, types) {
      assert forall j :: 0 <= j < i ==> names[1..][j] == names[j + 1];
      if LoopReaches(names[1..], i, types) {
        forall j | 0 <= j < i + 1 ensures names[j] in types && !types[names[j]] {
          if j > 0 { assert names[j] == names[1..][j - 1]; }
        }
      }
    }
    forall i | 0 < i <= |names| ensures LoopReaches(names, i, types) <==> LoopReaches(names[1..], i - 1, types) {
      if LoopReaches(names, i, types) {
        forall j | 0 <= j < i - 1 ensures names[1..][j] in types && !types[names[1..][j]] {
          assert names[1..][j] == names[j + 1];
        }
      } else if LoopReaches(names[1..], i - 1, types) {
        forall j | 0 <= j < i ensures names[j] in types && !types[names[j]] {
          if j > 0 { assert names[j] == names[1..][j - 1]; }
        }
      }
    }
  }

  /** The children of `path` in the workspace, in ascending sort order. */
  function SortedChildren(nodes: seq<NodeRow>, ws: string, path: string): (r: seq<NodeRow>)
    ensures SortedByOrder(r)
    ensures multiset(r) == multiset(ChildRows(nodes, path, Some(ws)))
  {
    SortByOrder(ChildRows(nodes, path, Some(ws)))
  }

  /** The data object of getNodeData for a row of workspace `ws`: a
      document the decoder rejects, or a mixin the node type manager does
      not know, fails it. */
  function NodeDataOf(nodes: seq<NodeRow>, ws: string, path: string, row: NodeRow, types: map<string, bool>): (r: Result<NodeData>)
    ensures Decode(row.props, None).Err? ==> r.Err?
    ensures Decode(row.props, None).Ok? ==>
      (r.Ok? <==> MixinsReferenceable(MixinNames(Member(nodes, ws, path, row, "jcr:mixinTypes")), types).Ok?)
  {
    var names := ChildNames(SortedChildren(nodes, ws, path));
    var start: NodeData := [("jcr:primaryType", FText(row.nodeType))];
    var base := PutChildren(start, names);
    PutFieldsAgrees(base, row.props, "jcr:mixinTypes");
    PutChildrenGet(start, names, "jcr:mixinTypes");
    var data :- PutFields(base, row.props);
    var isReferenceable :- MixinsReferenceable(MixinNames(Get(data, "jcr:mixinTypes")), types);
    Ok(if isReferenceable then Put(data, "jcr:uuid", FText(row.identifier)) else data)
  }

  /** getNodeData. The path's identifier is cached; a document the decoder
      rejects or an unknown mixin fails the read. */
  function GetNodeData(s: Session, path: string, row: NodeRow, types: map<string, bool>): (r: Result<(Session, NodeData)>)
    ensures r.Ok? <==> NodeDataOf(s.db.nodes, s.workspace, path, row, types).Ok?
    ensures r.Ok? ==> r.value.0 == s.(identifiers := s.identifiers[path := row.identifier])
    ensures r.Ok? ==> r.value.1 == NodeDataOf(s.db.nodes, s.workspace, path, row, types).value
  {
    var data :- NodeDataOf(s.db.nodes, s.workspace, path, row, types);
    Ok((s.(identifiers := s.identifiers[path := row.identifier]), data))
  }

  /** getNode: requires a login and a row at the path in the workspace. */
  function GetNode(s: Session, path: string, types: map<string, bool>): (r: Result<(Session, NodeData)>)
    ensures !s.loggedIn ==> r == Err(RepositoryError)
    ensures s.loggedIn && !PathTaken(s.db.nodes, path, s.workspace) ==> r == Err(ItemNotFound)
    ensures r.Ok? ==> exists i :: RowAt(s.db.nodes, i, path, s.workspace) && r == GetNodeData(s, path, s.db.nodes[i], types)
  {
    if !s.loggedIn then Err(RepositoryError)
    else
      var row := FindRow(s.db.nodes, path, s.workspace);
      if row.None? then Err(ItemNotFound)
      else GetNodeData(s, path, row.value, types)
  }

  /** What getNodes finds for one requested path: nothing without a row,
      otherwise the outcome of getNodeData. */
  function EntryAt(nodes: seq<NodeRow>, ws: string, path: string, types: map<string, bool>): Option<Result<NodeData>>
  {
    var row := FindRow(nodes, path, ws);
    if row.None? then None else Some(NodeDataOf(nodes, ws, path, row.value, types))
  }

  /** The first `n` outcomes gathered under their positions; the first
      failure fails the whole call. */
  function Collect<V>(es: seq<Option<Result<V>>>, n: nat): (r: Result<OMap<nat, V>>)
    requires n <= |es|
    ensures r.Ok? ==> forall i :: 0 <= i < |r.value| ==> r.value[i].0 < n
    decreases n
  {
    if n == 0 then Ok([])
    else
      var prev := Collect(es, n - 1);
      if prev.Err? || es[n - 1].None? then prev
      else if es[n - 1].value.Err? then Err(es[n - 1].value.error)
      else Ok(prev.value + [(n - 1, es[n - 1].value.value)])
  }

  /** The identifiers getNodes leaves in the cache: one per path found. */
  function CachedUpTo(ids: map<string, string>, nodes: seq<NodeRow>, ws: string, paths: seq<string>, n: nat): (r: map<string, string>)
    requires n <= |paths|
    ensures forall p :: p in ids ==> p in r
    decreases n
  {
    if n == 0 then ids
    else
      var prev := CachedUpTo(ids, nodes, ws, paths, n - 1);
      var row := FindRow(nodes, paths[n - 1], ws);
      if row.None? then prev else prev[paths[n - 1] := row.value.identifier]
  }

  function GetNodes(s: Session, paths: seq<string>, types: map<string, bool>): (r: Result<(Session, OMap<nat, NodeData>)>)
    ensures !s.loggedIn ==> r == Err(RepositoryError)
    ensures r.Ok? ==> r.value.0 == s.(identifiers := r.value.0.identifiers)
  {
    if !s.loggedIn then Err(RepositoryError)
    else
      var es := seq(|paths|, i requires 0 <= i < |paths| => EntryAt(s.db.nodes, s.workspace, paths[i], types));
      var data :- Collect(es, |paths|);
      Ok((s.(identifiers := CachedUpTo(s.identifiers, s.db.nodes, s.workspace, paths, |paths|)), data))
  }

  /* ---------------------------------------------------------------------
     Lemmas
     --------------------------------------------------------------------- */

  lemma {:induction false} PutChildrenGet(data: NodeData, names: seq<string>, k: string)
    ensures Get(PutChildren(data, names), k) == if k in names then Some(FChild) else Get(data, k)
    decreases |names|
  {
    if |names| > 0 {
      PutChildrenGet(Put(data, names[0], FChild), names[1..], k);
      assert names == [names[0]] + names[1..];
    }
  }

  /** Distinct fresh names are listed in the order given. */
  lemma {:induction false} PutChildrenKeys(data: NodeData, names: seq<string>)
    requires forall i, j :: 0 <= i < j < |names| ==> names[i] != names[j]
    requires forall i :: 0 <= i < |names| ==> names[i] !in Keys(data)
    ensures Keys(PutChildren(data, names)) == Keys(data) + names
    decreases |names|
  {
    if |names| > 0 {
      var d := Put(data, names[0], FChild);
      var rest := names[1..];
      assert names[0] !in Keys(data);
      PutKeysOrder(data, names[0], FChild);
      forall i | 0 <= i < |rest| ensures rest[i] !in Keys(d) {
        assert rest[i] == names[i + 1];
        assert rest[i] != names[0];
        assert rest[i] !in Keys(data);
      }
      assert forall i, j :: 0 <= i < j < |rest| ==> rest[i] != rest[j] by {
        forall i, j | 0 <= i < j < |rest| ensures rest[i] != rest[j] {
          assert rest[i] == names[i + 1] && rest[j] == names[j + 1];
        }
      }
      PutChildrenKeys(d, rest);
      assert PutChildren(data, names) == PutChildren(d, rest);
      SnocThenRest(Keys(data), names);
    }
  }

  lemma SnocThenRest<T>(a: seq<T>, b: seq<T>)
    requires |b| > 0
    ensures (a + [b[0]]) + b[1..] == a + b
  {
    assert b == [b[0]] + b[1..];
  }

  /** An element decodes to distinct keys: the name and ':' + name. */
  lemma DecodePropertyUnique(x: XmlProperty)
    requires DecodeProperty(x, None).Ok?
    ensures UniqueKeys(DecodeProperty(x, None).value)
  {
    assert |TypeKey(x.name)| == |x.name| + 1;
  }

  /** The inline decoder of getNodeData agrees with xmlToProps: it fails on
      the same documents, and every field xmlToProps yields overrides what
      the data object held before. */
  lemma {:induction false} PutFieldsAgrees(base: NodeData, doc: Document, k: string)
    ensures PutFields(base, doc).Ok? <==> Decode(doc, None).Ok?
    ensures PutFields(base, doc).Ok? ==>
      Get(PutFields(base, doc).value, k) == Over(Get(Decode(doc, None).value, k), Get(base, k))
    decreases |doc|
  {
    if |doc| > 0 {
      var init := doc[..|doc| - 1];
      var x := doc[|doc| - 1];
      PutFieldsAgrees(base, init, k);
      if PutFields(base, init).Ok? && DecodeProperty(x, None).Ok? {
        var d := PutFields(base, init).value;
        var m := Decode(init, None).value;
        var f := DecodeProperty(x, None).value;
        DecodePropertyUnique(x);
        assert UniqueKeys(Wrap(f)) by {
          forall i, j | 0 <= i < j < |Wrap(f)| ensures Wrap(f)[i].0 != Wrap(f)[j].0 {
            assert Wrap(f)[i].0 == Keys(Wrap(f))[i] == Keys(f)[i] == f[i].0;
            assert Wrap(f)[j].0 == Keys(Wrap(f))[j] == Keys(f)[j] == f[j].0;
          }
        }
        PutAllGet(d, Wrap(f), k);
        PutAllGet(m, f, k);
      }
    }
  }

  lemma {:induction false} PutFieldsKeepsKeys(base: NodeData, doc: Document)
    requires PutFields(base, doc).Ok?
    ensures Keys(base) <= Keys(PutFields(base, doc).value)
    decreases |doc|
  {
    if |doc| > 0 {
      var init := doc[..|doc| - 1];
      PutFieldsKeepsKeys(base, init);
      PutAllKeepsKeys(PutFields(base, init).value, Wrap(DecodeProperty(doc[|doc| - 1], None).value));
    }
  }

  /** The member of the data object before the identifier is considered:
      a decoded field, else a child, else the primary type. */
  function Member(nodes: seq<NodeRow>, ws: string, path: string, row: NodeRow, k: string): Option<Field>
    requires Decode(row.props, None).Ok?
  {
    Over(Get(Decode(row.props, None).value, k),
         if k in ChildNames(SortedChildren(nodes, ws, path)) then Some(FChild)
         else if k == "jcr:primaryType" then Some(FText(row.nodeType)) else None)
  }

  /** What every member of the node data is. The identifier is added
      exactly when the mixin loop finds a referenceable mixin, and then
      overrides whatever jcr:uuid held. */
  lemma NodeDataGet(nodes: seq<NodeRow>, ws: string, path: string, row: NodeRow, types: map<string, bool>, k: string)
    requires NodeDataOf(nodes, ws, path, row, types).Ok?
    ensures Get(NodeDataOf(nodes, ws, path, row, types).value, k) ==
      if k == "jcr:uuid" && MixinsReferenceable(MixinNames(Member(nodes, ws, path, row, "jcr:mixinTypes")), types) == Ok(true)
      then Some(FText(row.identifier))
      else Member(nodes, ws, path, row, k)
  {
    var names := ChildNames(SortedChildren(nodes, ws, path));
    var start: NodeData := [("jcr:primaryType", FText(row.nodeType))];
    var base := PutChildren(start, names);
    PutFieldsAgrees(base, row.props, k);
    PutFieldsAgrees(base, row.props, "jcr:mixinTypes");
    PutChildrenGet(start, names, k);
    PutChildrenGet(start, names, "jcr:mixinTypes");
  }

  /** The data object starts with the primary type followed by the
      children's names in ascending sort order (when they are distinct). */
  lemma NodeDataKeyOrder(nodes: seq<NodeRow>, ws: string, path: string, row: NodeRow, types: map<string, bool>)
    requires NodeDataOf(nodes, ws, path, row, types).Ok?
    requires var names := ChildNames(SortedChildren(nodes, ws, path));
      forall i, j :: 0 <= i < j < |names| ==> names[i] != names[j]
    requires "jcr:primaryType" !in ChildNames(SortedChildren(nodes, ws, path))
    ensures ["jcr:primaryType"] + ChildNames(SortedChildren(nodes, ws, path)) <= Keys(NodeDataOf(nodes, ws, path, row, types).value)
  {
    var names := ChildNames(SortedChildren(nodes, ws, path));
    var start: NodeData := [("jcr:primaryType", FText(row.nodeType))];
    assert Keys(start) == ["jcr:primaryType"];
    var base := PutChildren(start, names);
    PutChildrenKeys(start, names);
    PutFieldsAgrees(base, row.props, "");
    var data := PutFields(base, row.props).value;
    PutFieldsKeepsKeys(base, row.props);
    var out := NodeDataOf(nodes, ws, path, row, types).value;
    assert out == data || out == Put(data, "jcr:uuid", FText(row.identifier));
    PutKeepsKeys(data, "jcr:uuid", FText(row.identifier));
  }

  lemma PutKeepsKeys(m: NodeData, k: string, v: Field)
    ensures Keys(m) <= Keys(Put(m, k, v))
  {
    PutKeysOrder(m, k, v);
  }

  /** Collect succeeds only when no outcome among the first `n` failed,
      and then holds exactly the successful ones under their positions. */
  lemma {:induction false} CollectAgrees<V>(es: seq<Option<Result<V>>>, n: nat, k: nat)
    requires n <= |es| && k < |es| && Collect(es, n).Ok?
    ensures k < n && es[k].Some? ==> es[k].value.Ok? && Get(Collect(es, n).value, k) == Some(es[k].value.value)
    ensures k >= n || es[k].None? ==> Get(Collect(es, n).value, k).None?
    decreases n
  {
    if n > 0 {
      var prev := Collect(es, n - 1);
      CollectAgrees(es, n - 1, k);
      if es[n - 1].Some? {
        AppendFreshKey(prev.value, n - 1, es[n - 1].value.value, k);
      }
    }
  }

  /** A failure among the first `n` outcomes fails Collect. */
  lemma {:induction false} CollectFails<V>(es: seq<Option<Result<V>>>, n: nat, k: nat)
    requires k < n <= |es| && es[k].Some? && es[k].value.Err?
    ensures Collect(es, n).Err?
    decreases n
  {
    if k < n - 1 {
      CollectFails(es, n - 1, k);
    }
  }

  /** An entry appended under a key above every key present. */
  lemma AppendFreshKey<V>(m: OMap<nat, V>, key: nat, v: V, k: nat)
    requires forall i :: 0 <= i < |m| ==> m[i].0 < key
    ensures Get(m + [(key, v)], k) == if k == key then Some(v) else Get(m, k)
  {
    GetAppend(m, (key, v), k);
  }

  /** getNodes on a logged-in session: the entry under each position is the
      data getNodeData builds for the row at that path, and there is none
      for a path without a row. */
  lemma GetNodesAgrees(s: Session, paths: seq<string>, types: map<string, bool>, k: nat)
    requires s.loggedIn && k < |paths| && GetNodes(s, paths, types).Ok?
    ensures var row := FindRow(s.db.nodes, paths[k], s.workspace);
      && (row.Some? ==> NodeDataOf(s.db.nodes, s.workspace, paths[k], row.value, types).Ok?)
      && Get(GetNodes(s, paths, types).value.1, k) ==
        if row.Some? then Some(NodeDataOf(s.db.nodes, s.workspace, paths[k], row.value, types).value) else None
  {
    var es := seq(|paths|, i requires 0 <= i < |paths| => EntryAt(s.db.nodes, s.workspace, paths[i], types));
    CollectAgrees(es, |paths|, k);
  }

  /** One row whose document the decoder rejects fails the whole getNodes. */
  lemma GetNodesFailsOnBadRow(s: Session, paths: seq<string>, types: map<string, bool>, k: nat)
    requires s.loggedIn && k < |paths|
    requires FindRow(s.db.nodes, paths[k], s.workspace).Some?
    requires Decode(FindRow(s.db.nodes, paths[k], s.workspace).value.props, None).Err?
    ensures GetNodes(s, paths, types).Err?
  {
    var es := seq(|paths|, i requires 0 <= i < |paths| => EntryAt(s.db.nodes, s.workspace, paths[i], types));
    CollectFails(es, |paths|, k);
  }

  /** A found row naming a mixin the node type manager does not know, before
      any referenceable one, fails the whole getNodes. */
  lemma GetNodesFailsOnUnknownMixin(s: Session, paths: seq<string>, types: map<string, bool>, k: nat)
    requires s.loggedIn && k < |paths|
    requires FindRow(s.db.nodes, paths[k], s.workspace).Some?
    requires var row := FindRow(s.db.nodes, paths[k], s.workspace).value;
      Decode(row.props, None).Ok? &&
      MixinsReferenceable(MixinNames(Member(s.db.nodes, s.workspace, paths[k], row, "jcr:mixinTypes")), types).Err?
    ensures GetNodes(s, paths, types).Err?
  {
    var es := seq(|paths|, i requires 0 <= i < |paths| => EntryAt(s.db.nodes, s.workspace, paths[i], types));
    CollectFails(es, |paths|, k);
  }

  /** getNodes caches, for every path it found, the identifier of its row. */
  lemma {:induction false} CachedUpToHas(ids: map<string, string>, nodes: seq<NodeRow>, ws: string, paths: seq<string>, n: nat, k: nat)
    requires n <= |paths| && k < n && FindRow(nodes, paths[k], ws).Some?
    ensures paths[k] in CachedUpTo(ids, nodes, ws, paths, n)
    ensures CachedUpTo(ids, nodes, ws, paths, n)[paths[k]] == FindRow(nodes, paths[k], ws).value.identifier
    decreases n
  {
    if k < n - 1 {
      CachedUpToHas(ids, nodes, ws, paths, n - 1, k);
    }
  }

  /** After a read the cache maps the path to the row's identifier. */
  lemma GetNodeCachesIdentifier(s: Session, path: string, types: map<string, bool>, i: nat)
    requires Wf(s.db) && GetNode(s, path, types).Ok?
    requires i < |s.db.nodes| && s.db.nodes[i].path == path && s.db.nodes[i].workspace == s.workspace
    ensures GetNode(s, path, types).value.0.identifiers[path] == s.db.nodes[i].identifier
  {
    FindRowUnique(s.db.nodes, path, s.workspace, i);
  }
}
