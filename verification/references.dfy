/** The reference index: the edges table rebuilt from a node's REFERENCE
    and WEAKREFERENCE properties when the node is saved
    (syncForeignKeys), and the reverse lookup of the properties pointing
    at a node (getReferences / getWeakReferences). */
module References {
  import opened Wrappers
  import opened Text
  import opened Codec
  import opened Schema
  import opened Sessions
  import opened Lookup

  predicate IsRefType(t: PropType) { t == Reference || t == WeakReference }

  /** The identifiers a reference property holds, as its string values. */
  function RefValues(p: Property): (r: seq<string>)
    ensures p.multiple ==> r == MapText(p.values)
    ensures !p.multiple && |p.values| > 0 ==> r == [ScalarText(p.values[0])]
  {
    if p.multiple then MapText(p.values)
    else if |p.values| > 0 then [ScalarText(p.values[0])]
    else []
  }

  /** array_unique: the first occurrence of every value, in order. */
  function Dedup(xs: seq<string>): (r: seq<string>)
    ensures forall x :: x in r <==> x in xs
    ensures NoDup(r)
    decreases |xs|
  {
    if |xs| == 0 then []
    else
      var d := Dedup(xs[..|xs| - 1]);
      var x := xs[|xs| - 1];
      assert forall y :: y in xs <==> y in xs[..|xs| - 1] || y == x by {
        assert xs == xs[..|xs| - 1] + [x];
      }
      if x in d then d else d + [x]
  }

  predicate NoDup(xs: seq<string>)
  {
    forall i, j :: 0 <= i < j < |xs| ==> xs[i] != xs[j]
  }

  /** The target id of a referenced identifier: nothing when the
      identifier names no node of the workspace (the not-found case the
      client catches); any other failure propagates. */
  function ResolveTarget(s: Session, identifier: string): (r: Result<Option<nat>>)
    ensures !s.loggedIn ==> r == Err(RepositoryError)
    ensures r == Ok(None) <==> s.loggedIn && NodePathForIdentifier(s, identifier).Err?
    ensures r.Ok? && r.value.Some? ==>
      && NodePathForIdentifier(s, identifier).Ok?
      && PathExists(s, NodePathForIdentifier(s, identifier).value) == r.value
  {
    var p := NodePathForIdentifier(s, identifier);
    if p.Err? then (if p.error == ItemNotFound then Ok(None) else Err(p.error))
    else
      var id := PathExists(s, p.value);
      if id.None? then Err(BackendError) else Ok(id)
  }

  /** The edge a value of property `p` contributes, if it resolves. */
  function EdgeFor(s: Session, nodeId: nat, p: Property, v: string): Option<Edge>
  {
    var t := ResolveTarget(s, v);
    if t.Ok? && t.value.Some? then Some(Edge(nodeId, p.name, t.value.value, p.ptype)) else None
  }

  predicate EdgeKeyTaken(es: set<Edge>, e: Edge)
  {
    exists f :: f in es && SameEdgeKey(e, f)
  }

  /** The insert loop over the distinct values of one property. */
  function LinkValues(s: Session, nodeId: nat, p: Property, vs: seq<string>, es: set<Edge>): Result<set<Edge>>
    decreases |vs|
  {
    if |vs| == 0 then Ok(es)
    else
      var t :- ResolveTarget(s, vs[0]);
      if t.None? then
        if p.ptype == Reference then Err(ReferentialIntegrity)
        else LinkValues(s, nodeId, p, vs[1..], es)
      else
        var e := Edge(nodeId, p.name, t.value, p.ptype);
        if EdgeKeyTaken(es, e) then Err(BackendError)
        else LinkValues(s, nodeId, p, vs[1..], es + {e})
  }

  /** The loop over the node's properties; other types are passed over. */
  function LinkProps(s: Session, nodeId: nat, ps: seq<Property>, es: set<Edge>): Result<set<Edge>>
    decreases |ps|
  {
    if |ps| == 0 then Ok(es)
    else
      var es1 :- if IsRefType(ps[0].ptype) then LinkValues(s, nodeId, ps[0], Dedup(RefValues(ps[0])), es) else Ok(es);
      LinkProps(s, nodeId, ps[1..], es1)
  }

  /** syncForeignKeys: every edge leaving the node is dropped, then one is
      inserted per distinct value of each reference property. A dangling
      REFERENCE fails the save; a dangling WEAKREFERENCE is skipped. */
  function SyncForeignKeys(s: Session, nodeId: nat, ps: seq<Property>): (r: Result<Db>)
    ensures r.Ok? ==> r.value == s.db.(edges := r.value.edges)
    ensures r.Ok? ==> forall e :: e in s.db.edges && e.sourceId != nodeId ==> e in r.value.edges
  {
    var kept := set e | e in s.db.edges && e.sourceId != nodeId;
    var es :- LinkProps(s, nodeId, ps, kept);
    LinkPropsGrows(s, nodeId, ps, kept);
    Ok(s.db.(edges := es))
  }

  /** getNodeReferences: the paths `source path/property name` of the
      edges of the requested kind pointing at the node at `path` in the
      current workspace, optionally only those of one property name. The
      source rows are not restricted to the current workspace. With a name
      given, every path found ends in `/` and that name. */
  function GetNodeReferences(s: Session, path: string, name: Option<string>, weak: bool): (r: set<string>)
    ensures name.Some? ==> forall p :: p in r ==> EndsWith(p, "/" + name.value)
    ensures forall p :: p in r ==> exists i :: 0 <= i < |s.db.nodes| && StartsWith(p, s.db.nodes[i].path + "/")
  {
    ReferencePathsShape(s, path, name, weak);
    set e, i | e in s.db.edges && 0 <= i < |s.db.nodes| && ReferenceFrom(s, path, name, weak, e, i) :: s.db.nodes[i].path + "/" + e.propertyName
  }

  predicate StartsWith(p: string, prefix: string) { |prefix| <= |p| && p[..|prefix|] == prefix }

  predicate EndsWith(p: string, suffix: string) { |suffix| <= |p| && p[|p| - |suffix|..] == suffix }

  /** A reference path is its source row's path, `/`, and the property name. */
  lemma ReferencePathsShape(s: Session, path: string, name: Option<string>, weak: bool)
    ensures forall e, i | e in s.db.edges && ReferenceFrom(s, path, name, weak, e, i) ::
      && StartsWith(s.db.nodes[i].path + "/" + e.propertyName, s.db.nodes[i].path + "/")
      && EndsWith(s.db.nodes[i].path + "/" + e.propertyName, "/" + e.propertyName)
  {
    forall e, i | e in s.db.edges && ReferenceFrom(s, path, name, weak, e, i)
      ensures StartsWith(s.db.nodes[i].path + "/" + e.propertyName, s.db.nodes[i].path + "/")
      ensures EndsWith(s.db.nodes[i].path + "/" + e.propertyName, "/" + e.propertyName)
    {
      var a, b := s.db.nodes[i].path, e.propertyName;
      assert a + "/" + b == (a + "/") + b == a + ("/" + b);
    }
  }

  /** Edge `e`, leaving row `i`, is one of the references asked for. A path
      that does not exist binds the target id as 0, which no row has. */
  predicate ReferenceFrom(s: Session, path: string, name: Option<string>, weak: bool, e: Edge, i: int)
  {
    var target := PathExists(s, path);
    && 0 <= i < |s.db.nodes| && s.db.nodes[i].id == e.sourceId
    && e.targetId == (if target.Some? then target.value else 0)
    && e.kind == (if weak then WeakReference else Reference)
    && (name.None? || e.propertyName == name.value)
  }

  /* ---------------------------------------------------------------------
     Reference definition and lemmas
     --------------------------------------------------------------------- */

  /** The edges the values `vs` of property `p` contribute: one per
      resolvable value. */
  function ValuesEdges(s: Session, nodeId: nat, p: Property, vs: seq<string>): set<Edge>
    decreases |vs|
  {
    if |vs| == 0 then {}
    else
      var e := EdgeFor(s, nodeId, p, vs[0]);
      (if e.Some? then {e.value} else {}) + ValuesEdges(s, nodeId, p, vs[1..])
  }

  function PropEdges(s: Session, nodeId: nat, p: Property): set<Edge>
  {
    if IsRefType(p.ptype) then ValuesEdges(s, nodeId, p, RefValues(p)) else {}
  }

  function AllEdges(s: Session, nodeId: nat, ps: seq<Property>): set<Edge>
    decreases |ps|
  {
    if |ps| == 0 then {} else PropEdges(s, nodeId, ps[0]) + AllEdges(s, nodeId, ps[1..])
  }

  lemma {:induction false} ValuesEdgesMembers(s: Session, nodeId: nat, p: Property, vs: seq<string>, e: Edge)
    ensures e in ValuesEdges(s, nodeId, p, vs) <==> exists v :: v in vs && EdgeFor(s, nodeId, p, v) == Some(e)
    decreases |vs|
  {
    if |vs| > 0 {
      ValuesEdgesMembers(s, nodeId, p, vs[1..], e);
      assert forall v :: v in vs <==> v == vs[0] || v in vs[1..] by {
        assert vs == [vs[0]] + vs[1..];
      }
    }
  }

  /** Only the set of values matters, so dropping duplicates first adds
      the same edges. */
  lemma DedupSameEdges(s: Session, nodeId: nat, p: Property, vs: seq<string>)
    ensures ValuesEdges(s, nodeId, p, Dedup(vs)) == ValuesEdges(s, nodeId, p, vs)
  {
    forall e ensures e in ValuesEdges(s, nodeId, p, Dedup(vs)) <==> e in ValuesEdges(s, nodeId, p, vs) {
      ValuesEdgesMembers(s, nodeId, p, Dedup(vs), e);
      ValuesEdgesMembers(s, nodeId, p, vs, e);
    }
  }

  /** The loop adds exactly the resolved values' edges, and it succeeds
      only if every hard reference resolves. */
  lemma {:induction false} LinkValuesResult(s: Session, nodeId: nat, p: Property, vs: seq<string>, es: set<Edge>)
    requires LinkValues(s, nodeId, p, vs, es).Ok?
    ensures LinkValues(s, nodeId, p, vs, es).value == es + ValuesEdges(s, nodeId, p, vs)
    ensures forall v :: v in vs ==> ResolveTarget(s, v).Ok?
    ensures p.ptype == Reference ==> forall v :: v in vs ==> ResolveTarget(s, v).value.Some?
    decreases |vs|
  {
    if |vs| > 0 {
      var t := ResolveTarget(s, vs[0]);
      assert forall v :: v in vs <==> v == vs[0] || v in vs[1..] by {
        assert vs == [vs[0]] + vs[1..];
      }
      if t.value.None? {
        LinkValuesResult(s, nodeId, p, vs[1..], es);
      } else {
        var e := Edge(nodeId, p.name, t.value.value, p.ptype);
        LinkValuesResult(s, nodeId, p, vs[1..], es + {e});
      }
    }
  }

  lemma {:induction false} LinkPropsResult(s: Session, nodeId: nat, ps: seq<Property>, es: set<Edge>)
    requires LinkProps(s, nodeId, ps, es).Ok?
    ensures LinkProps(s, nodeId, ps, es).value == es + AllEdges(s, nodeId, ps)
    ensures forall i, v :: 0 <= i < |ps| && ps[i].ptype == Reference && v in RefValues(ps[i]) ==>
      ResolveTarget(s, v).Ok? && ResolveTarget(s, v).value.Some?
    decreases |ps|
  {
    if |ps| > 0 {
      var p := ps[0];
      var es1 := if IsRefType(p.ptype) then LinkValues(s, nodeId, p, Dedup(RefValues(p)), es) else Ok(es);
      if IsRefType(p.ptype) {
        var vs := Dedup(RefValues(p));
        LinkValuesResult(s, nodeId, p, vs, es);
        DedupSameEdges(s, nodeId, p, RefValues(p));
      }
      LinkPropsResult(s, nodeId, ps[1..], es1.value);
      forall i, v | 0 <= i < |ps| && ps[i].ptype == Reference && v in RefValues(ps[i])
        ensures ResolveTarget(s, v).Ok? && ResolveTarget(s, v).value.Some?
      {
        if i > 0 { assert ps[i] == ps[1..][i - 1]; }
      }
    }
  }

  lemma LinkPropsGrows(s: Session, nodeId: nat, ps: seq<Property>, es: set<Edge>)
    requires LinkProps(s, nodeId, ps, es).Ok?
    ensures es <= LinkProps(s, nodeId, ps, es).value
  {
    LinkPropsResult(s, nodeId, ps, es);
  }

  /** The rebuilt index: the edges of other nodes as they were, and for
      this node one edge per resolvable value of each reference property;
      a successful save has resolved every hard reference. */
  lemma SyncForeignKeysEdges(s: Session, nodeId: nat, ps: seq<Property>)
    requires SyncForeignKeys(s, nodeId, ps).Ok?
    ensures SyncForeignKeys(s, nodeId, ps).value.edges ==
      (set e | e in s.db.edges && e.sourceId != nodeId) + AllEdges(s, nodeId, ps)
    ensures forall i, v :: 0 <= i < |ps| && ps[i].ptype == Reference && v in RefValues(ps[i]) ==>
      ResolveTarget(s, v).Ok? && ResolveTarget(s, v).value.Some?
  {
    LinkPropsResult(s, nodeId, ps, set e | e in s.db.edges && e.sourceId != nodeId);
  }

  /** A hard reference to an identifier the workspace does not hold fails
      the save with a referential integrity error. */
  lemma DanglingReferenceFails(s: Session, nodeId: nat, ps: seq<Property>, i: nat, v: string)
    requires s.loggedIn && i < |ps| && ps[i].ptype == Reference && v in RefValues(ps[i])
    requires NodePathForIdentifier(s, v).Err?
    ensures SyncForeignKeys(s, nodeId, ps).Err?
  {
    assert ResolveTarget(s, v) == Ok(None);
    if SyncForeignKeys(s, nodeId, ps).Ok? {
      SyncForeignKeysEdges(s, nodeId, ps);
    }
  }

  /** A weak reference to an identifier the workspace does not hold adds
      no edge, and does not by itself fail the save. */
  lemma DanglingWeakReferenceSkipped(s: Session, nodeId: nat, p: Property, v: string, es: set<Edge>)
    requires s.loggedIn && p.ptype == WeakReference
    requires NodePathForIdentifier(s, v).Err?
    ensures LinkValues(s, nodeId, p, [v], es) == Ok(es)
  {
  }

  /** The target of a resolved identifier is the row carrying it. */
  lemma ResolvedRow(s: Session, v: string, t: nat) returns (k: nat)
    requires Wf(s.db) && ResolveTarget(s, v) == Ok(Some(t))
    ensures k < |s.db.nodes| && s.db.nodes[k].identifier == v && s.db.nodes[k].id == t
  {
    var path := NodePathForIdentifier(s, v).value;
    var i :| RowAt(s.db.nodes, i, path, s.workspace) && s.db.nodes[i].identifier == v;
    var j :| RowAt(s.db.nodes, j, path, s.workspace) && s.db.nodes[j].id == t;
    k := i;
  }

  /** Distinct identifiers resolve to distinct targets. */
  lemma ResolveInjective(s: Session, v: string, w: string, t: nat)
    requires Wf(s.db) && ResolveTarget(s, v) == Ok(Some(t)) && ResolveTarget(s, w) == Ok(Some(t))
    ensures v == w
  {
    var a := ResolvedRow(s, v, t);
    var b := ResolvedRow(s, w, t);
  }

  /** Under a logged-in, well-formed database every failure of a value is
      a dangling hard reference. */
  lemma ResolveTotal(s: Session, v: string)
    requires Wf(s.db) && s.loggedIn
    ensures ResolveTarget(s, v).Ok?
  {
    var p := NodePathForIdentifier(s, v);
    if p.Ok? {
      var i :| RowAt(s.db.nodes, i, p.value, s.workspace) && s.db.nodes[i].identifier == v;
      assert PathTaken(s.db.nodes, p.value, s.workspace);
    }
  }

  /** The value loop succeeds when every hard reference resolves, the
      values are distinct and no edge of the property is left over. */
  lemma {:induction false} LinkValuesOk(s: Session, nodeId: nat, p: Property, vs: seq<string>, es: set<Edge>)
    requires Wf(s.db) && s.loggedIn && NoDup(vs)
    requires p.ptype == Reference ==> forall v :: v in vs ==> NodePathForIdentifier(s, v).Ok?
    requires forall f :: f in es && f.sourceId == nodeId && f.propertyName == p.name ==>
      forall v :: v in vs ==> ResolveTarget(s, v) != Ok(Some(f.targetId))
    ensures LinkValues(s, nodeId, p, vs, es).Ok?
    decreases |vs|
  {
    if |vs| > 0 {
      ResolveTotal(s, vs[0]);
      var t := ResolveTarget(s, vs[0]);
      var rest := vs[1..];
      assert NoDup(rest) by {
        forall i, j | 0 <= i < j < |rest| ensures rest[i] != rest[j] {
          assert rest[i] == vs[i + 1] && rest[j] == vs[j + 1];
        }
      }
      assert forall v :: v in rest ==> v in vs && v != vs[0] by {
        forall v | v in rest ensures v in vs && v != vs[0] {
          var k :| 0 <= k < |rest| && rest[k] == v;
          assert vs[k + 1] == v;
        }
      }
      if t.value.None? {
        LinkValuesOk(s, nodeId, p, rest, es);
      } else {
        var e := Edge(nodeId, p.name, t.value.value, p.ptype);
        assert !EdgeKeyTaken(es, e);
        forall f, v | f in es + {e} && f.sourceId == nodeId && f.propertyName == p.name && v in rest
          ensures ResolveTarget(s, v) != Ok(Some(f.targetId))
        {
          if f == e && ResolveTarget(s, v) == Ok(Some(f.targetId)) {
            ResolveInjective(s, v, vs[0], f.targetId);
          }
        }
        LinkValuesOk(s, nodeId, p, rest, es + {e});
      }
    }
  }

  function Names(ps: seq<Property>): (r: set<string>)
    ensures forall i :: 0 <= i < |ps| ==> ps[i].name in r
    ensures forall n :: n in r ==> exists i :: 0 <= i < |ps| && ps[i].name == n
  {
    set i | 0 <= i < |ps| :: ps[i].name
  }

  predicate NamesDistinct(ps: seq<Property>)
  {
    forall i, j :: 0 <= i < j < |ps| ==> ps[i].name != ps[j].name
  }

  lemma {:induction false} ValuesEdgesNamed(s: Session, nodeId: nat, p: Property, vs: seq<string>)
    ensures forall e :: e in ValuesEdges(s, nodeId, p, vs) ==> e.sourceId == nodeId && e.propertyName == p.name
    decreases |vs|
  {
    if |vs| > 0 {
      ValuesEdgesNamed(s, nodeId, p, vs[1..]);
    }
  }

  lemma {:induction false} LinkPropsOk(s: Session, nodeId: nat, ps: seq<Property>, es: set<Edge>)
    requires Wf(s.db) && s.loggedIn && NamesDistinct(ps)
    requires forall i, v :: 0 <= i < |ps| && ps[i].ptype == Reference && v in RefValues(ps[i]) ==>
      NodePathForIdentifier(s, v).Ok?
    requires forall f :: f in es && f.sourceId == nodeId ==> f.propertyName !in Names(ps)
    ensures LinkProps(s, nodeId, ps, es).Ok?
    decreases |ps|
  {
    if |ps| > 0 {
      PropsTail(s, ps);
      var es1 := LinkFirstOk(s, nodeId, ps, es);
      LinkPropsOk(s, nodeId, ps[1..], es1);
    }
  }

  /** The tail of the properties keeps distinct names and resolving hard
      references; the head's name is not among its names. */
  lemma PropsTail(s: Session, ps: seq<Property>)
    requires |ps| > 0 && NamesDistinct(ps)
    requires forall i, v :: 0 <= i < |ps| && ps[i].ptype == Reference && v in RefValues(ps[i]) ==>
      NodePathForIdentifier(s, v).Ok?
    ensures NamesDistinct(ps[1..])
    ensures ps[0].name !in Names(ps[1..])
    ensures forall n :: n in Names(ps[1..]) ==> n in Names(ps)
    ensures forall i, v :: 0 <= i < |ps[1..]| && ps[1..][i].ptype == Reference && v in RefValues(ps[1..][i]) ==>
      NodePathForIdentifier(s, v).Ok?
  {
    var rest := ps[1..];
    assert forall i :: 0 <= i < |rest| ==> rest[i] == ps[i + 1];
    assert ps[0].name !in Names(rest) by {
      forall i | 0 <= i < |rest| ensures rest[i].name != ps[0].name {
        assert rest[i] == ps[i + 1];
      }
    }
    forall n | n in Names(rest) ensures n in Names(ps) {
      var i :| 0 <= i < |rest| && rest[i].name == n;
      assert ps[i + 1].name == n;
    }
  }

  /** Linking the first property succeeds and leaves no edge of the node
      named by a later property. */
  lemma LinkFirstOk(s: Session, nodeId: nat, ps: seq<Property>, es: set<Edge>) returns (es1: set<Edge>)
    requires Wf(s.db) && s.loggedIn && |ps| > 0
    requires ps[0].ptype == Reference ==> forall v :: v in RefValues(ps[0]) ==> NodePathForIdentifier(s, v).Ok?
    requires ps[0].name !in Names(ps[1..])
    requires forall n :: n in Names(ps[1..]) ==> n in Names(ps)
    requires forall f :: f in es && f.sourceId == nodeId ==> f.propertyName !in Names(ps)
    ensures (if IsRefType(ps[0].ptype) then LinkValues(s, nodeId, ps[0], Dedup(RefValues(ps[0])), es) else Ok(es)) == Ok(es1)
    ensures forall f :: f in es1 && f.sourceId == nodeId ==> f.propertyName !in Names(ps[1..])
  {
    var p := ps[0];
    es1 := es;
    if IsRefType(p.ptype) {
      var vs := Dedup(RefValues(p));
      LinkValuesOk(s, nodeId, p, vs, es);
      es1 := LinkValues(s, nodeId, p, vs, es).value;
      LinkValuesResult(s, nodeId, p, vs, es);
      ValuesEdgesNamed(s, nodeId, p, vs);
    }
  }

  /** Saving succeeds as far as references go when property names are
      distinct and every hard reference names a node of the workspace. */
  lemma SyncForeignKeysOk(s: Session, nodeId: nat, ps: seq<Property>)
    requires Wf(s.db) && s.loggedIn && NamesDistinct(ps)
    requires forall i, v :: 0 <= i < |ps| && ps[i].ptype == Reference && v in RefValues(ps[i]) ==>
      NodePathForIdentifier(s, v).Ok?
    ensures SyncForeignKeys(s, nodeId, ps).Ok?
  {
    LinkPropsOk(s, nodeId, ps, set e | e in s.db.edges && e.sourceId != nodeId);
  }

  /** A saved reference is found again from its target: the property's
      path is among the target's references of that kind. */
  lemma SavedReferenceIsFound(s: Session, nodeId: nat, ps: seq<Property>, i: nat, v: string, k: nat, weak: bool)
    requires Wf(s.db) && s.loggedIn
    requires SyncForeignKeys(s, nodeId, ps).Ok?
    requires i < |ps| && ps[i].ptype == (if weak then WeakReference else Reference) && v in RefValues(ps[i])
    requires NodePathForIdentifier(s, v).Ok?
    requires k < |s.db.nodes| && s.db.nodes[k].id == nodeId
    ensures s.db.nodes[k].path + "/" + ps[i].name in
      GetNodeReferences(s.(db := SyncForeignKeys(s, nodeId, ps).value), NodePathForIdentifier(s, v).value, None, weak)
  {
    var db' := SyncForeignKeys(s, nodeId, ps).value;
    var s' := s.(db := db');
    var q := NodePathForIdentifier(s, v).value;
    SyncForeignKeysEdges(s, nodeId, ps);
    ResolveTotal(s, v);
    var t := ResolveTarget(s, v).value;
    assert t.Some? by {
      assert ResolveTarget(s, v) != Ok(None);
    }
    var e := Edge(nodeId, ps[i].name, t.value, ps[i].ptype);
    assert EdgeFor(s, nodeId, ps[i], v) == Some(e);
    ValuesEdgesMembers(s, nodeId, ps[i], RefValues(ps[i]), e);
    assert e in PropEdges(s, nodeId, ps[i]);
    AllEdgesHas(s, nodeId, ps, i, e);
    assert e in db'.edges;
    assert s'.db.nodes == s.db.nodes;
    assert PathExists(s', q) == PathExists(s, q) == t;
    assert ReferenceFrom(s', q, None, weak, e, k);
  }

  lemma {:induction false} AllEdgesHas(s: Session, nodeId: nat, ps: seq<Property>, i: nat, e: Edge)
    requires i < |ps| && e in PropEdges(s, nodeId, ps[i])
    ensures e in AllEdges(s, nodeId, ps)
    decreases |ps|
  {
    if i > 0 {
      assert ps[1..][i - 1] == ps[i];
      AllEdgesHas(s, nodeId, ps[1..], i - 1, e);
    }
  }

  /** A path with no node has no references: no edge points at id 0. */
  lemma MissingPathHasNoReferences(s: Session, path: string, name: Option<string>, weak: bool)
    requires Wf(s.db) && !PathTaken(s.db.nodes, path, s.workspace)
    ensures GetNodeReferences(s, path, name, weak) == {}
  {
    forall e, i | e in s.db.edges && ReferenceFrom(s, path, name, weak, e, i) ensures false {
    }
  }

  /** References are counted from every workspace: an edge leaving a row of
      another workspace is reported too. */
  lemma ReferencesCrossWorkspaces(s: Session, path: string, e: Edge, i: nat, weak: bool)
    requires e in s.db.edges && i < |s.db.nodes| && s.db.nodes[i].id == e.sourceId
    requires s.db.nodes[i].workspace != s.workspace
    requires PathExists(s, path) == Some(e.targetId) && e.kind == (if weak then WeakReference else Reference)
    ensures s.db.nodes[i].path + "/" + e.propertyName in GetNodeReferences(s, path, None, weak)
  {
    assert ReferenceFrom(s, path, None, weak, e, i);
  }

  /** Asking for one property name keeps only references through that
      name: they are among all references of the kind. */
  lemma NamedReferencesAmongAll(s: Session, path: string, n: string, weak: bool)
    ensures GetNodeReferences(s, path, Some(n), weak) <= GetNodeReferences(s, path, None, weak)
  {
  }
}
